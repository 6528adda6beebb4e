/**
 * The record search of the tree import as functions of the import state:
 * which start nodes are records for a record path, and the walk of
 * importTreeData and findRecord that looks for them.  The walk is proved to
 * import exactly the records of the stream, in stream order, each as
 * processRecord flattens it, skipping those met once the project holds the
 * row limit.
 */
module TreeRecordSearch {
  import opened Wrappers
  import opened TreeReader
  import opened XmlRecordDetection
  import opened TreeFlattening

  /** For a positive limit, the rows already hold at least `limit` rows. */
  predicate LimitReached(s: ImportState, limit: int) {
    limit > 0 && |s.rows| >= limit
  }

  /** The open start nodes match the record path segment by segment, and there are no more of them than segments. */
  ghost predicate PathPrefix(stack: seq<Token>, path: seq<string>) {
    |stack| <= |path| && forall k :: 0 <= k < |stack| ==> Matches(stack[k], path[k])
  }

  /**
   * A record: a start node after the first position whose open start nodes
   * (itself included, counted from the second position on) match the record
   * path exactly.
   */
  ghost predicate IsRecordStart(t: seq<Token>, q: nat, path: seq<string>)
    requires q < |t|
  {
    1 <= q && t[q].StartEntity? && PathPrefix(OpenStarts(t, 1, q + 1), path) && |OpenStarts(t, 1, q + 1)| == |path|
  }

  /** The records among the positions from `a` up to (not including) `b`, in stream order. */
  ghost function RecordStarts(t: seq<Token>, a: nat, b: nat, path: seq<string>): seq<nat>
    requires a <= b <= |t|
    decreases b
  {
    if b == a then []
    else RecordStarts(t, a, b - 1, path) + (if IsRecordStart(t, b - 1, path) then [b - 1] else [])
  }

  /**
   * RecordStarts lists exactly the records between `a` and `b`, each once and
   * in stream order.
   */
  lemma {:induction false} RecordStartsAreRecords(t: seq<Token>, a: nat, b: nat, path: seq<string>)
    requires a <= b <= |t|
    ensures forall i :: 0 <= i < |RecordStarts(t, a, b, path)| ==>
      a <= RecordStarts(t, a, b, path)[i] < b && IsRecordStart(t, RecordStarts(t, a, b, path)[i], path)
    ensures forall q :: a <= q < b ==> (q in RecordStarts(t, a, b, path) <==> IsRecordStart(t, q, path))
    ensures forall i, j :: 0 <= i < j < |RecordStarts(t, a, b, path)| ==> RecordStarts(t, a, b, path)[i] < RecordStarts(t, a, b, path)[j]
    decreases b
  {
    if b > a {
      RecordStartsAreRecords(t, a, b - 1, path);
      var qs := RecordStarts(t, a, b - 1, path);
      var last := if IsRecordStart(t, b - 1, path) then [b - 1] else [];
      assert RecordStarts(t, a, b, path) == qs + last;
      forall q | a <= q < b
        ensures q in qs + last <==> IsRecordStart(t, q, path)
      {
        if q < b - 1 {
          assert q !in last;
        }
      }
    }
  }

  // ---------------------------------------------------------------------
  // The walk, for any record processing and any stopping condition
  //
  // The search does not look into what processing a record does to the
  // project: it only asks, between records, whether to stop.  It is
  // therefore stated for a state of any type `S`, a `process` step that
  // imports the record started at a position, and a `stop` test; the tree
  // import instantiates them with processRecord and the row limit.

  /** The records at `qs` processed in order, each one met once `stop` holds left out. */
  ghost function RecordsApplied<S>(qs: seq<nat>, s: S, process: (nat, S) -> S, stop: S -> bool): S
    decreases |qs|
  {
    if qs == [] then s
    else
      var s1 := RecordsApplied(qs[..|qs| - 1], s, process, stop);
      if stop(s1) then s1 else process(qs[|qs| - 1], s1)
  }

  /**
   * findRecord at `pos` for segment `i` of the record path: an ignorable
   * token is left alone, a node not matching the segment is skipped whole, a
   * node matching the last segment is a record, processed and consumed whole,
   * and a node matching an earlier segment is searched child by child.  The
   * result is where the cursor stops and the new state.
   */
  ghost function RecordsFound<S>(t: seq<Token>, pos: nat, s: S, path: seq<string>, i: nat, process: (nat, S) -> S, stop: S -> bool)
    : (r: (nat, S))
    requires pos < |t| && (t[pos].StartEntity? || t[pos].Ignorable?) && i < |path|
    ensures pos <= r.0 < |t|
    ensures t[pos].StartEntity? ==> SubtreeSpan(t, pos, r.0) || (stop(r.1) && OpenThrough(t, pos, r.0 + 1))
    decreases |t| - pos, 1
  {
    if t[pos].Ignorable? then (pos, s)
    else if !Matches(t[pos], path[i]) then (SubtreeEnd(t, pos), s)
    else if i == |path| - 1 then (SubtreeEnd(t, pos), process(pos, s))
    else
      StartOpens(t, pos);
      ChildRecordsFound(t, pos, pos, s, path, i + 1, process, stop)
  }

  /**
   * The child loop of findRecord in the node started at `c` once position
   * `p` is consumed: it stops at the end of the stream, once `stop` holds,
   * or at the node's end node; a child start node is searched for segment
   * `i`.
   */
  ghost function ChildRecordsFound<S>(t: seq<Token>, c: nat, p: nat, s: S, path: seq<string>, i: nat, process: (nat, S) -> S, stop: S -> bool)
    : (r: (nat, S))
    requires c <= p < |t| && OpenThrough(t, c, p + 1)
    requires p + 1 < |t| && !stop(s) ==> Depth(t, c, p + 1) == 1
    requires i < |path|
    ensures p <= r.0 < |t|
    ensures SubtreeSpan(t, c, r.0) || (stop(r.1) && OpenThrough(t, c, r.0 + 1))
    decreases |t| - p, 0
  {
    if p + 1 == |t| || stop(s) then (p, s)
    else if t[p + 1].StartEntity? then
      var (e, s1) := RecordsFound(t, p + 1, s, path, i, process, stop);
      ChildAdvance(t, c, p + 1, e);
      ChildRecordsFound(t, c, e, s1, path, i, process, stop)
    else if t[p + 1].EndEntity? then (p + 1, s)
    else
      PlainStep(t, c, p + 1);
      ChildRecordsFound(t, c, p + 1, s, path, i, process, stop)
  }

  /**
   * importTreeData once position `p` is consumed: every start node met at
   * the top level is searched for records, until the stream ends or `stop`
   * holds.  An empty record path makes the search of the first start node
   * fail, which ends the import there.
   */
  ghost function TreeImported<S>(t: seq<Token>, p: nat, s: S, path: seq<string>, process: (nat, S) -> S, stop: S -> bool): (r: (nat, S))
    requires p < |t|
    ensures p <= r.0 < |t|
    ensures r.0 + 1 == |t| || stop(r.1) || (path == [] && t[r.0].StartEntity?)
    decreases |t| - p
  {
    if p + 1 == |t| || stop(s) then (p, s)
    else if t[p + 1].StartEntity? then
      if path == [] then (p + 1, s)
      else
        var (e, s1) := RecordsFound(t, p + 1, s, path, 0, process, stop);
        TreeImported(t, e, s1, path, process, stop)
    else TreeImported(t, p + 1, s, path, process, stop)
  }

  /** processRecord as a step of the walk (a position holding no start node, or an ill-formed model, is left alone). */
  ghost function ProcessStep(t: seq<Token>, root: nat): (nat, ImportState) -> ImportState {
    (q: nat, s: ImportState) =>
      if q < |t| && t[q].StartEntity? && WellFormed(s.groups, s.columns) && root < |s.groups|
      then RecordFlattened(t, q, s, root).1 else s
  }

  /** The row-limit test of the walk. */
  function LimitTest(limit: int): ImportState -> bool {
    (s: ImportState) => LimitReached(s, limit)
  }

  /** After a child node searched from `s`, the parent is still open; it is at depth one again unless the search stopped inside. */
  lemma ChildAdvance(t: seq<Token>, c: nat, s: nat, e: nat)
    requires c < s <= e < |t| && OpenThrough(t, c, s) && Depth(t, c, s) == 1
    requires SubtreeSpan(t, s, e) || OpenThrough(t, s, e + 1)
    ensures OpenThrough(t, c, e + 1)
    ensures SubtreeSpan(t, s, e) && e + 1 < |t| ==> Depth(t, c, e + 1) == 1
  {
    if SubtreeSpan(t, s, e) {
      ChildSpan(t, c, s, e);
    } else {
      ChildOpen(t, c, s, e + 1);
    }
  }

  // ---------------------------------------------------------------------
  // Records and the stack of open start nodes

  lemma {:induction false} RecordStartsConcat(t: seq<Token>, a: nat, m: nat, b: nat, path: seq<string>)
    requires a <= m <= b <= |t|
    ensures RecordStarts(t, a, b, path) == RecordStarts(t, a, m, path) + RecordStarts(t, m, b, path)
    decreases b
  {
    if b > m {
      RecordStartsConcat(t, a, m, b - 1, path);
    }
  }

  lemma {:induction false} RecordStartsNone(t: seq<Token>, a: nat, b: nat, path: seq<string>)
    requires a <= b <= |t|
    requires forall q :: a <= q < b ==> !IsRecordStart(t, q, path)
    ensures RecordStarts(t, a, b, path) == []
    decreases b
  {
    if b > a {
      RecordStartsNone(t, a, b - 1, path);
    }
  }

  /** A record followed by positions holding none. */
  lemma RecordStartsSingle(t: seq<Token>, a: nat, b: nat, path: seq<string>)
    requires a < b <= |t| && IsRecordStart(t, a, path)
    requires forall q :: a + 1 <= q < b ==> !IsRecordStart(t, q, path)
    ensures RecordStarts(t, a, b, path) == [a]
  {
    RecordStartsNone(t, a + 1, b, path);
    RecordStartsConcat(t, a, a + 1, b, path);
    assert RecordStarts(t, a, a, path) == [];
  }

  /** With an empty record path there are no records: a start node always has itself open. */
  lemma RecordStartsEmptyPath(t: seq<Token>, a: nat, b: nat)
    requires a <= b <= |t|
    ensures RecordStarts(t, a, b, []) == []
  {
    forall q | a <= q < b
      ensures !IsRecordStart(t, q, [])
    {
      if 1 <= q && t[q].StartEntity? {
        assert OpenStarts(t, 1, q + 1) == OpenStarts(t, 1, q) + [t[q]];
      }
    }
    RecordStartsNone(t, a, b, []);
  }

  /**
   * Inside the node started at `c`, the open start nodes are those open
   * before it, then the node itself, then as many more as the depth below it.
   */
  lemma StackInside(t: seq<Token>, c: nat, b: nat)
    requires 1 <= c < b <= |t| && t[c].StartEntity? && OpenThrough(t, c, b)
    ensures OpenStarts(t, 1, b) == OpenStarts(t, 1, c) + [t[c]] + OpenStarts(t, c + 1, b)
    ensures |OpenStarts(t, c + 1, b)| == Depth(t, c, b) - 1
  {
    OpenStartsConcat(t, 1, c, b);
    var c1 := c + 1;
    forall k | c1 <= k <= b
      ensures Depth(t, c1, k) >= 0
    {
      DepthSplit(t, c, c1, k);
    }
    OpenStartsConcat(t, c, c1, b);
    DepthSplit(t, c, c1, b);
    assert OpenStarts(t, c, c + 1) == [t[c]];
  }

  /** Directly inside the node started at `c`, the open start nodes are those open right after `c`. */
  lemma SiblingStack(t: seq<Token>, c: nat, q: nat)
    requires 1 <= c < q <= |t| && t[c].StartEntity? && OpenThrough(t, c, q) && Depth(t, c, q) == 1
    ensures OpenStarts(t, 1, q) == OpenStarts(t, 1, c + 1)
  {
    StackInside(t, c, q);
    StackInside(t, c, c + 1);
  }

  /** A start node strictly inside the node started at `c` has at least two more open start nodes than were open before `c`. */
  lemma StartBelow(t: seq<Token>, c: nat, q: nat)
    requires 1 <= c < q < |t| && t[c].StartEntity? && t[q].StartEntity? && OpenThrough(t, c, q + 1)
    ensures |OpenStarts(t, 1, q + 1)| >= |OpenStarts(t, 1, c)| + 2
  {
    StackInside(t, c, q + 1);
    assert Depth(t, c, q + 1) == Depth(t, c, q) + 1;
  }

  /** No start node of a node whose name does not match segment `i` is a record. */
  lemma SkippedHasNoRecords(t: seq<Token>, pos: nat, e: nat, path: seq<string>)
    requires 1 <= pos < |t| && t[pos].StartEntity? && SubtreeSpan(t, pos, e)
    requires |OpenStarts(t, 1, pos)| < |path| && !Matches(t[pos], path[|OpenStarts(t, 1, pos)|])
    ensures RecordStarts(t, pos, e + 1, path) == []
  {
    forall q | pos <= q < e + 1
      ensures !IsRecordStart(t, q, path)
    {
      SkippedNotRecord(t, pos, e, q, path);
    }
    RecordStartsNone(t, pos, e + 1, path);
  }

  /** A start node inside a node not matching its segment has that node on its stack, so it is not a record. */
  lemma SkippedNotRecord(t: seq<Token>, pos: nat, e: nat, q: nat, path: seq<string>)
    requires 1 <= pos <= q <= e < |t| && t[pos].StartEntity? && SubtreeSpan(t, pos, e)
    requires |OpenStarts(t, 1, pos)| < |path| && !Matches(t[pos], path[|OpenStarts(t, 1, pos)|])
    ensures !IsRecordStart(t, q, path)
  {
    if t[q].StartEntity? {
      assert OpenThrough(t, pos, q + 1);
      StackInside(t, pos, q + 1);
      assert OpenStarts(t, 1, q + 1)[|OpenStarts(t, 1, pos)|] == t[pos];
    }
  }

  /** A start node matching the next segment extends a matching stack. */
  lemma PathPrefixSnoc(stack: seq<Token>, tok: Token, path: seq<string>)
    requires PathPrefix(stack, path) && |stack| < |path| && Matches(tok, path[|stack|])
    ensures PathPrefix(stack + [tok], path)
  {
    forall k | 0 <= k < |stack + [tok]|
      ensures Matches((stack + [tok])[k], path[k])
    {
      if k < |stack| {
        assert (stack + [tok])[k] == stack[k];
      }
    }
  }

  /** A start node matching the next segment, pushed on a matching stack, leaves it matching and one longer. */
  lemma MatchedPush(t: seq<Token>, pos: nat, path: seq<string>)
    requires 1 <= pos < |t| && t[pos].StartEntity?
    requires PathPrefix(OpenStarts(t, 1, pos), path) && |OpenStarts(t, 1, pos)| < |path|
    requires Matches(t[pos], path[|OpenStarts(t, 1, pos)|])
    ensures PathPrefix(OpenStarts(t, 1, pos + 1), path) && |OpenStarts(t, 1, pos + 1)| == |OpenStarts(t, 1, pos)| + 1
  {
    assert OpenStarts(t, 1, pos + 1) == OpenStarts(t, 1, pos) + [t[pos]];
    PathPrefixSnoc(OpenStarts(t, 1, pos), t[pos], path);
  }

  /** A node matching the last segment is the one record of its span. */
  lemma RecordIsOnlyStart(t: seq<Token>, pos: nat, e: nat, path: seq<string>)
    requires 1 <= pos < |t| && t[pos].StartEntity? && SubtreeSpan(t, pos, e)
    requires PathPrefix(OpenStarts(t, 1, pos), path) && |OpenStarts(t, 1, pos)| == |path| - 1
    requires Matches(t[pos], path[|path| - 1])
    ensures RecordStarts(t, pos, e + 1, path) == [pos]
  {
    MatchedPush(t, pos, path);
    assert IsRecordStart(t, pos, path);
    forall q | pos + 1 <= q < e + 1
      ensures !IsRecordStart(t, q, path)
    {
      if t[q].StartEntity? {
        assert OpenThrough(t, pos, q + 1);
        StartBelow(t, pos, q);
      }
    }
    RecordStartsSingle(t, pos, e + 1, path);
  }

  /** A start node that is not a record adds nothing in front of the records after it. */
  lemma NotRecordFirst(t: seq<Token>, a: nat, b: nat, path: seq<string>)
    requires a < b <= |t| && !IsRecordStart(t, a, path)
    ensures RecordStarts(t, a, b, path) == RecordStarts(t, a + 1, b, path)
  {
    RecordStartsNone(t, a, a + 1, path);
    RecordStartsConcat(t, a, a + 1, b, path);
  }

  /** After a top-level node searched whole, no start node is open any more. */
  lemma TopLevelClosed(t: seq<Token>, c: nat, e: nat)
    requires 1 <= c < |t| && OpenStarts(t, 1, c) == [] && Closes(t, c, e)
    ensures OpenStarts(t, 1, e + 1) == []
  {
    ClosedAfter(t, c, e);
    OpenStartsConcat(t, 1, c, e + 1);
  }

  // ---------------------------------------------------------------------
  // Processing records in order

  lemma {:induction false} RecordsAppliedConcat<S>(xs: seq<nat>, ys: seq<nat>, s: S, process: (nat, S) -> S, stop: S -> bool)
    ensures RecordsApplied(xs + ys, s, process, stop) == RecordsApplied(ys, RecordsApplied(xs, s, process, stop), process, stop)
    decreases |ys|
  {
    if ys == [] {
      assert xs + ys == xs;
    } else {
      var ys' := ys[..|ys| - 1];
      RecordsAppliedConcat(xs, ys', s, process, stop);
      assert (xs + ys)[..|xs + ys| - 1] == xs + ys';
    }
  }

  /** Once `stop` holds, no further record changes anything. */
  lemma {:induction false} RecordsAppliedStopped<S>(qs: seq<nat>, s: S, process: (nat, S) -> S, stop: S -> bool)
    requires stop(s)
    ensures RecordsApplied(qs, s, process, stop) == s
    decreases |qs|
  {
    if qs != [] {
      RecordsAppliedStopped(qs[..|qs| - 1], s, process, stop);
    }
  }

  /** Records split at `m`: processing those before it and then those after it processes all of them. */
  lemma AppliedSplit<S>(t: seq<Token>, a: nat, m: nat, b: nat, path: seq<string>, s: S, process: (nat, S) -> S, stop: S -> bool)
    requires a <= m <= b <= |t|
    ensures RecordsApplied(RecordStarts(t, a, b, path), s, process, stop)
         == RecordsApplied(RecordStarts(t, m, b, path), RecordsApplied(RecordStarts(t, a, m, path), s, process, stop), process, stop)
  {
    RecordStartsConcat(t, a, m, b, path);
    RecordsAppliedConcat(RecordStarts(t, a, m, path), RecordStarts(t, m, b, path), s, process, stop);
  }

  // ---------------------------------------------------------------------
  // The walk processes exactly the records

  /**
   * findRecord from a start node whose open ancestors match the first `i`
   * segments processes exactly the records inside the node, in order.
   */
  lemma {:induction false} RecordsFoundApplied<S>(t: seq<Token>, pos: nat, s: S, path: seq<string>, i: nat, process: (nat, S) -> S, stop: S -> bool)
    requires 1 <= pos < |t| && t[pos].StartEntity? && i < |path| && !stop(s)
    requires PathPrefix(OpenStarts(t, 1, pos), path) && |OpenStarts(t, 1, pos)| == i
    ensures var r := RecordsFound(t, pos, s, path, i, process, stop);
            r.1 == RecordsApplied(RecordStarts(t, pos, r.0 + 1, path), s, process, stop)
    decreases |t| - pos, 3
  {
    var e := SubtreeEnd(t, pos);
    if !Matches(t[pos], path[i]) {
      SkippedHasNoRecords(t, pos, e, path);
    } else if i == |path| - 1 {
      RecordIsOnlyStart(t, pos, e, path);
      assert [pos][..0] == [];
    } else {
      StartOpens(t, pos);
      var r := ChildRecordsFound(t, pos, pos, s, path, i + 1, process, stop);
      MatchedPush(t, pos, path);
      ChildRecordsApplied(t, pos, pos, s, path, i + 1, process, stop);
      NotRecordFirst(t, pos, r.0 + 1, path);
    }
  }

  /** The child loop of findRecord processes exactly the records from the next position to where it stops, in order. */
  lemma {:induction false} ChildRecordsApplied<S>(t: seq<Token>, c: nat, p: nat, s: S, path: seq<string>, i: nat, process: (nat, S) -> S, stop: S -> bool)
    requires 1 <= c <= p < |t| && t[c].StartEntity? && OpenThrough(t, c, p + 1)
    requires p + 1 < |t| && !stop(s) ==> Depth(t, c, p + 1) == 1
    requires i < |path|
    requires PathPrefix(OpenStarts(t, 1, c + 1), path) && |OpenStarts(t, 1, c + 1)| == i
    ensures var r := ChildRecordsFound(t, c, p, s, path, i, process, stop);
            r.1 == RecordsApplied(RecordStarts(t, p + 1, r.0 + 1, path), s, process, stop)
    decreases |t| - p, 2
  {
    if p + 1 == |t| || stop(s) {
      assert RecordStarts(t, p + 1, p + 1, path) == [];
    } else if t[p + 1].StartEntity? {
      ChildStartApplied(t, c, p, s, path, i, process, stop);
    } else if t[p + 1].EndEntity? {
      NotRecordFirst(t, p + 1, p + 2, path);
      assert RecordStarts(t, p + 2, p + 2, path) == [];
    } else {
      PlainStep(t, c, p + 1);
      var r := ChildRecordsFound(t, c, p + 1, s, path, i, process, stop);
      ChildRecordsApplied(t, c, p + 1, s, path, i, process, stop);
      NotRecordFirst(t, p + 1, r.0 + 1, path);
    }
  }

  /** ChildRecordsApplied for a child start node: the child's records come first, then those after it. */
  lemma {:induction false} ChildStartApplied<S>(t: seq<Token>, c: nat, p: nat, s: S, path: seq<string>, i: nat, process: (nat, S) -> S, stop: S -> bool)
    requires 1 <= c <= p && p + 1 < |t| && t[c].StartEntity? && t[p + 1].StartEntity? && !stop(s)
    requires OpenThrough(t, c, p + 1) && Depth(t, c, p + 1) == 1
    requires i < |path|
    requires PathPrefix(OpenStarts(t, 1, c + 1), path) && |OpenStarts(t, 1, c + 1)| == i
    ensures var r := ChildRecordsFound(t, c, p, s, path, i, process, stop);
            r.1 == RecordsApplied(RecordStarts(t, p + 1, r.0 + 1, path), s, process, stop)
    decreases |t| - p, 1
  {
    SiblingStack(t, c, p + 1);
    RecordsFoundApplied(t, p + 1, s, path, i, process, stop);
    ChildRestApplied(t, c, p, s, path, i, process, stop);
  }

  /** At a child start node the child loop searches the child and carries on from where that search stops. */
  lemma ChildStartFound<S>(t: seq<Token>, c: nat, p: nat, s: S, path: seq<string>, i: nat, process: (nat, S) -> S, stop: S -> bool)
    requires c <= p && p + 1 < |t| && t[p + 1].StartEntity? && !stop(s)
    requires OpenThrough(t, c, p + 1) && Depth(t, c, p + 1) == 1 && i < |path|
    ensures var found := RecordsFound(t, p + 1, s, path, i, process, stop);
            OpenThrough(t, c, found.0 + 1) && (found.0 + 1 < |t| && !stop(found.1) ==> Depth(t, c, found.0 + 1) == 1) &&
            ChildRecordsFound(t, c, p, s, path, i, process, stop) == ChildRecordsFound(t, c, found.0, found.1, path, i, process, stop)
  {
    ChildAdvance(t, c, p + 1, RecordsFound(t, p + 1, s, path, i, process, stop).0);
  }

  /**
   * The second half of ChildStartApplied: once the child has been searched,
   * the records after it follow those inside it.
   */
  lemma {:induction false} ChildRestApplied<S>(t: seq<Token>, c: nat, p: nat, s: S, path: seq<string>, i: nat, process: (nat, S) -> S, stop: S -> bool)
    requires 1 <= c <= p && p + 1 < |t| && t[c].StartEntity? && t[p + 1].StartEntity? && !stop(s)
    requires OpenThrough(t, c, p + 1) && Depth(t, c, p + 1) == 1
    requires i < |path|
    requires PathPrefix(OpenStarts(t, 1, c + 1), path) && |OpenStarts(t, 1, c + 1)| == i
    requires var found := RecordsFound(t, p + 1, s, path, i, process, stop);
             found.1 == RecordsApplied(RecordStarts(t, p + 1, found.0 + 1, path), s, process, stop)
    ensures var r := ChildRecordsFound(t, c, p, s, path, i, process, stop);
            r.1 == RecordsApplied(RecordStarts(t, p + 1, r.0 + 1, path), s, process, stop)
    decreases |t| - p, 0, 1
  {
    var found := RecordsFound(t, p + 1, s, path, i, process, stop);
    ChildStartFound(t, c, p, s, path, i, process, stop);
    ChildTailApplied(t, c, p, found.0, s, found.1, path, i, process, stop);
  }

  /** Once the child ending at `e` has turned `s` into `s1`, the records after it follow those inside it. */
  lemma {:induction false} ChildTailApplied<S>(t: seq<Token>, c: nat, p: nat, e: nat, s: S, s1: S, path: seq<string>, i: nat, process: (nat, S) -> S, stop: S -> bool)
    requires 1 <= c <= p < e < |t| && t[c].StartEntity?
    requires OpenThrough(t, c, e + 1) && (e + 1 < |t| && !stop(s1) ==> Depth(t, c, e + 1) == 1)
    requires i < |path|
    requires PathPrefix(OpenStarts(t, 1, c + 1), path) && |OpenStarts(t, 1, c + 1)| == i
    requires s1 == RecordsApplied(RecordStarts(t, p + 1, e + 1, path), s, process, stop)
    ensures var r := ChildRecordsFound(t, c, e, s1, path, i, process, stop);
            r.1 == RecordsApplied(RecordStarts(t, p + 1, r.0 + 1, path), s, process, stop)
    decreases |t| - p, 0, 0
  {
    var r := ChildRecordsFound(t, c, e, s1, path, i, process, stop);
    ChildRecordsApplied(t, c, e, s1, path, i, process, stop);
    RangesApplied(t, p + 1, e + 1, r.0 + 1, path, s, s1, r.1, process, stop);
  }

  /** Records processed over two adjacent ranges are the records of the joined range processed in one run. */
  lemma RangesApplied<S>(t: seq<Token>, a: nat, m: nat, b: nat, path: seq<string>, s: S, s1: S, s2: S, process: (nat, S) -> S, stop: S -> bool)
    requires a <= m <= b <= |t|
    requires s1 == RecordsApplied(RecordStarts(t, a, m, path), s, process, stop)
    requires s2 == RecordsApplied(RecordStarts(t, m, b, path), s1, process, stop)
    ensures s2 == RecordsApplied(RecordStarts(t, a, b, path), s, process, stop)
  {
    RecordStartsConcat(t, a, m, b, path);
    AppliedThrough(RecordStarts(t, a, m, path), RecordStarts(t, m, b, path), RecordStarts(t, a, b, path), s, s1, s2, process, stop);
  }

  /** Records processed in two runs are the records of both runs processed in one. */
  lemma AppliedThrough<S>(xs: seq<nat>, ys: seq<nat>, zs: seq<nat>, s: S, s1: S, s2: S, process: (nat, S) -> S, stop: S -> bool)
    requires zs == xs + ys
    requires s1 == RecordsApplied(xs, s, process, stop)
    requires s2 == RecordsApplied(ys, s1, process, stop)
    ensures s2 == RecordsApplied(zs, s, process, stop)
  {
    RecordsAppliedConcat(xs, ys, s, process, stop);
  }


  /** The top-level walk from position `p` on processes exactly the records after `p`, in order. */
  lemma {:induction false} TreeImportedApplied<S>(t: seq<Token>, p: nat, s: S, path: seq<string>, process: (nat, S) -> S, stop: S -> bool)
    requires p < |t|
    requires p + 1 < |t| && !stop(s) ==> OpenStarts(t, 1, p + 1) == []
    ensures TreeImported(t, p, s, path, process, stop).1 == RecordsApplied(RecordStarts(t, p + 1, |t|, path), s, process, stop)
    decreases |t| - p, 1
  {
    if p + 1 == |t| {
      assert RecordStarts(t, p + 1, p + 1, path) == [];
    } else if stop(s) {
      RecordsAppliedStopped(RecordStarts(t, p + 1, |t|, path), s, process, stop);
    } else if t[p + 1].StartEntity? {
      if path == [] {
        RecordStartsEmptyPath(t, p + 1, |t|);
      } else {
        TopStartApplied(t, p, s, path, process, stop);
      }
    } else {
      assert OpenStarts(t, 1, p + 2) == PushPop(OpenStarts(t, 1, p + 1), t[p + 1]);
      TreeImportedApplied(t, p + 1, s, path, process, stop);
      NotRecordFirst(t, p + 1, |t|, path);
    }
  }

  /** TreeImportedApplied for a top-level start node: its records come first, then those after it. */
  lemma {:induction false} TopStartApplied<S>(t: seq<Token>, p: nat, s: S, path: seq<string>, process: (nat, S) -> S, stop: S -> bool)
    requires p + 1 < |t| && t[p + 1].StartEntity? && path != [] && !stop(s)
    requires OpenStarts(t, 1, p + 1) == []
    ensures TreeImported(t, p, s, path, process, stop).1 == RecordsApplied(RecordStarts(t, p + 1, |t|, path), s, process, stop)
    decreases |t| - p, 0
  {
    var (e, s1) := RecordsFound(t, p + 1, s, path, 0, process, stop);
    RecordsFoundApplied(t, p + 1, s, path, 0, process, stop);
    if e + 1 < |t| && !stop(s1) {
      TopLevelClosed(t, p + 1, e);
    }
    TreeImportedApplied(t, e, s1, path, process, stop);
    AppliedSplit(t, p + 1, e + 1, |t|, path, s, process, stop);
  }

  /**
   * The tree import processes exactly the records of the stream (the start
   * nodes whose open start nodes match the record path), in stream order,
   * leaving out those met once `stop` holds.
   */
  lemma ImportedRecords<S>(t: seq<Token>, s: S, path: seq<string>, process: (nat, S) -> S, stop: S -> bool)
    requires |t| > 0
    ensures TreeImported(t, 0, s, path, process, stop).1 == RecordsApplied(RecordStarts(t, 1, |t|, path), s, process, stop)
  {
    TreeImportedApplied(t, 0, s, path, process, stop);
  }

  /** With an empty record path nothing is imported. */
  lemma EmptyPathImportsNothing<S>(t: seq<Token>, s: S, process: (nat, S) -> S, stop: S -> bool)
    requires |t| > 0
    ensures TreeImported(t, 0, s, [], process, stop).1 == s
  {
    ImportedRecords(t, s, [], process, stop);
    RecordStartsEmptyPath(t, 1, |t|);
  }

  // ---------------------------------------------------------------------
  // The tree import's own processing

  /**
   * Processing records with processRecord keeps the column bookkeeping
   * consistent, only grows the model and the rows, and every cell keeps
   * holding trimmed non-empty text.
   */
  lemma {:induction false} RecordsAppliedKeeps(t: seq<Token>, qs: seq<nat>, s: ImportState, root: nat, limit: int)
    requires ModelConsistent(s) && CleanRows(s.rows) && root < |s.groups|
    ensures var s' := RecordsApplied(qs, s, ProcessStep(t, root), LimitTest(limit));
            ModelConsistent(s') && CleanRows(s'.rows) && StateGrown(s, s') && s.rows <= s'.rows
    decreases |qs|
  {
    if qs != [] {
      var s1 := RecordsApplied(qs[..|qs| - 1], s, ProcessStep(t, root), LimitTest(limit));
      RecordsAppliedKeeps(t, qs[..|qs| - 1], s, root, limit);
      var q := qs[|qs| - 1];
      if !LimitReached(s1, limit) && q < |t| && t[q].StartEntity? {
        RecordFlattenedKeeps(t, q, s1, root);
        StateGrownTransitive(s, s1, RecordFlattened(t, q, s1, root).1);
      }
    }
  }

  /**
   * The tree import keeps the column bookkeeping consistent, only appends
   * rows, and every cell of the project holds trimmed non-empty text.
   */
  lemma ImportKeepsRows(t: seq<Token>, s: ImportState, root: nat, path: seq<string>, limit: int)
    requires |t| > 0 && ModelConsistent(s) && CleanRows(s.rows) && root < |s.groups|
    ensures var s' := TreeImported(t, 0, s, path, ProcessStep(t, root), LimitTest(limit)).1;
            ModelConsistent(s') && CleanRows(s'.rows) && s.rows <= s'.rows
  {
    ImportedRecords(t, s, path, ProcessStep(t, root), LimitTest(limit));
    RecordsAppliedKeeps(t, RecordStarts(t, 1, |t|, path), s, root, limit);
  }
}
