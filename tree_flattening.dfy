/**
 * Flattening of one tree-shaped record into rows, as functions of the import
 * state: the column groups and columns met so far, the project's next cell
 * index and the rows being written.  The imperative walk in TreeImport is
 * proved equal to these functions; the lemmas here say what they guarantee:
 * a cell is only ever written into an empty slot, so no cell is lost, and
 * every non-blank trimmed attribute or text value of a node becomes a cell
 * of its column.
 *
 * The cell-write rule of addCell and the lookups of getColumnGroup and
 * getColumn belong to TreeImportUtilities, which is not part of this model;
 * they are given the bodies below.
 */
module TreeFlattening {
  import opened Wrappers
  import opened TreeReader
  import opened XmlRecordDetection

  /** A row of a record or of the project: one optional cell text per cell index. */
  type Row = seq<Option<string>>

  /** A column: the cell index it writes to and the first row it has not filled yet. */
  datatype ImportColumn = ImportColumn(cellIndex: nat, nextRowIndex: nat)

  /**
   * A column group: the first row none of its columns has filled yet, its
   * columns by field name (a text value without a field name uses the key
   * None) and its subgroups by element name.  Columns and subgroups are
   * named by their index in the column model.
   */
  datatype ImportColumnGroup = ImportColumnGroup(nextRowIndex: nat, columns: map<Option<string>, nat>, subgroups: map<string, nat>)

  /** Every index a group holds names an existing column or group. */
  ghost predicate WellFormed(groups: seq<ImportColumnGroup>, columns: seq<ImportColumn>) {
    forall i :: 0 <= i < |groups| ==>
      (forall k :: k in groups[i].columns ==> groups[i].columns[k] < |columns|) &&
      (forall k :: k in groups[i].subgroups ==> groups[i].subgroups[k] < |groups|)
  }

  // ---------------------------------------------------------------------
  // Cell text

  /** Java's whitespace test for trimming: every character up to U+0020. */
  predicate IsTrimmable(ch: char) {
    ch <= ' '
  }

  /** Text a cell may hold: non-empty, with nothing to trim at either end. */
  predicate IsCellText(s: string) {
    |s| > 0 && !IsTrimmable(s[0]) && !IsTrimmable(s[|s| - 1])
  }

  /** Number of trimmable characters at the start of `s`. */
  function LeadingBlanks(s: string): (n: nat)
    ensures n <= |s| && (forall k :: 0 <= k < n ==> IsTrimmable(s[k]))
    ensures n < |s| ==> !IsTrimmable(s[n])
  {
    if s == [] || !IsTrimmable(s[0]) then 0
    else
      var n := LeadingBlanks(s[1..]);
      assert forall k :: 1 <= k < n + 1 ==> s[k] == s[1..][k - 1];
      n + 1
  }

  /** Length of `s` without its trailing trimmable characters. */
  function TrailingEnd(s: string): (m: nat)
    ensures m <= |s| && (forall k :: m <= k < |s| ==> IsTrimmable(s[k]))
    ensures m > 0 ==> !IsTrimmable(s[m - 1])
  {
    if s == [] || !IsTrimmable(s[|s| - 1]) then |s|
    else TrailingEnd(s[..|s| - 1])
  }

  /** Java's String.trim: drops the trimmable characters at both ends. */
  function Trim(s: string): (r: string)
    ensures r == [] || IsCellText(r)
    ensures r == [] <==> forall k :: 0 <= k < |s| ==> IsTrimmable(s[k])
    ensures exists i, j :: 0 <= i <= j <= |s| && r == s[i..j] &&
                           (forall k :: 0 <= k < i ==> IsTrimmable(s[k])) &&
                           (forall k :: j <= k < |s| ==> IsTrimmable(s[k]))
  {
    var i := LeadingBlanks(s);
    if i == |s| then
      assert s[i..i] == [];
      []
    else
      var j := TrailingEnd(s);
      assert i < j;
      s[i..j]
  }

  /** Trimming twice is trimming once. */
  lemma TrimIdempotent(s: string)
    ensures Trim(Trim(s)) == Trim(s)
  {
    var r := Trim(s);
    if r != [] {
      assert IsCellText(r);
    }
  }

  /** Every cell of the rows holds cell text. */
  ghost predicate CleanRows(rows: seq<Row>) {
    forall i, j :: 0 <= i < |rows| && 0 <= j < |rows[i]| && rows[i][j].Some? ==> IsCellText(rows[i][j].value)
  }

  /** `rows` with cell `cell` of row `r` set to `v`, padding with empty rows and empty cells as needed. */
  function PutCell(rows: seq<Row>, r: nat, cell: nat, v: string): (rows': seq<Row>)
    ensures |rows'| == if r < |rows| then |rows| else r + 1
    ensures cell < |rows'[r]| && rows'[r][cell] == Some(v)
    ensures forall i :: 0 <= i < |rows| && i != r ==> rows'[i] == rows[i]
    ensures forall i :: |rows| <= i < |rows'| && i != r ==> rows'[i] == []
    ensures r < |rows| ==> |rows'[r]| >= |rows[r]| &&
                           forall j :: 0 <= j < |rows[r]| && j != cell ==> rows'[r][j] == rows[r][j]
    ensures forall j :: 0 <= j < |rows'[r]| && j != cell && (r >= |rows| || j >= |rows[r]|) ==> rows'[r][j] == None
  {
    var padded := if r < |rows| then rows else rows + seq(r + 1 - |rows|, _ => []);
    var row := padded[r];
    var row' := if cell < |row| then row[cell := Some(v)] else row + seq(cell - |row|, _ => None) + [Some(v)];
    padded[r := row']
  }

  lemma PutCellClean(rows: seq<Row>, r: nat, cell: nat, v: string)
    requires CleanRows(rows) && IsCellText(v)
    ensures CleanRows(PutCell(rows, r, cell, v))
  {
    var rows': seq<Row> := PutCell(rows, r, cell, v);
    forall i: nat, j: nat | i < |rows'| && j < |rows'[i]| && rows'[i][j].Some?
      ensures IsCellText(rows'[i][j].value)
    {
      if i == r && j != cell && r < |rows| && j < |rows[r]| {
        assert rows'[i][j] == rows[i][j];
      }
    }
  }

  /** Cell `j` of row `r`; None when that row or cell does not exist. */
  function CellAt(rows: seq<Row>, r: nat, j: nat): Option<string> {
    if r < |rows| && j < |rows[r]| then rows[r][j] else None
  }

  /** Writing a cell changes that one cell and no other. */
  lemma PutCellAt(rows: seq<Row>, r: nat, cell: nat, v: string)
    ensures forall i: nat, j: nat :: CellAt(PutCell(rows, r, cell, v), i, j) ==
                                     (if i == r && j == cell then Some(v) else CellAt(rows, i, j))
  {
    var rows' := PutCell(rows, r, cell, v);
    forall i: nat, j: nat
      ensures CellAt(rows', i, j) == if i == r && j == cell then Some(v) else CellAt(rows, i, j)
    {
      if i == r && j != cell && r < |rows| && j < |rows[r]| {
        assert rows'[r][j] == rows[r][j];
      }
    }
  }

  /** Every cell of `rows` is still in `rows'`, with the same text. */
  ghost predicate CellsKept(rows: seq<Row>, rows': seq<Row>) {
    forall r: nat, j: nat :: CellAt(rows, r, j).Some? ==> CellAt(rows', r, j) == CellAt(rows, r, j)
  }

  // ---------------------------------------------------------------------
  // Columns and column groups

  /** Every entry of `m` is kept in `m'`. */
  ghost predicate Extends<K, V>(m: map<K, V>, m': map<K, V>) {
    forall k :: k in m ==> k in m' && m'[k] == m[k]
  }

  /**
   * From the first model to the second, groups and columns were only added,
   * a group's links to its columns and subgroups were only added, cell
   * indices stayed put and no row cursor moved back.
   */
  ghost predicate Grown(groups: seq<ImportColumnGroup>, columns: seq<ImportColumn>,
                        groups': seq<ImportColumnGroup>, columns': seq<ImportColumn>) {
    |groups| <= |groups'| && |columns| <= |columns'| &&
    (forall i :: 0 <= i < |groups| ==>
      groups[i].nextRowIndex <= groups'[i].nextRowIndex &&
      Extends(groups[i].columns, groups'[i].columns) &&
      Extends(groups[i].subgroups, groups'[i].subgroups)) &&
    (forall i :: 0 <= i < |columns| ==>
      columns'[i].cellIndex == columns[i].cellIndex && columns[i].nextRowIndex <= columns'[i].nextRowIndex)
  }

  lemma GrownTransitive(g0: seq<ImportColumnGroup>, c0: seq<ImportColumn>, g1: seq<ImportColumnGroup>, c1: seq<ImportColumn>,
                        g2: seq<ImportColumnGroup>, c2: seq<ImportColumn>)
    requires Grown(g0, c0, g1, c1) && Grown(g1, c1, g2, c2)
    ensures Grown(g0, c0, g2, c2)
  {
  }

  /**
   * What the flattening changes: the column groups and columns, the
   * project's next cell index, and the rows written (a record's rows while a
   * record is flattened, the project's rows during the record search).
   */
  datatype ImportState = ImportState(groups: seq<ImportColumnGroup>, columns: seq<ImportColumn>, nextCell: nat, rows: seq<Row>)

  /** The state only grew from `s` to `s'`, in the sense of Grown. */
  ghost predicate StateGrown(s: ImportState, s': ImportState) {
    Grown(s.groups, s.columns, s'.groups, s'.columns)
  }

  /** The larger of two row indices. */
  function Max(a: nat, b: nat): nat {
    if a < b then b else a
  }

  /** getColumnGroup: the subgroup of `parent` for `name`, created (with no rows used yet) on first use. */
  function ColumnGroupOf(s: ImportState, parent: nat, name: string): (r: (ImportState, nat))
    requires WellFormed(s.groups, s.columns) && parent < |s.groups|
    ensures WellFormed(r.0.groups, r.0.columns) && r.1 < |r.0.groups| && |s.groups| <= |r.0.groups|
    ensures r.0.columns == s.columns && r.0.nextCell == s.nextCell && r.0.rows == s.rows
    ensures name in r.0.groups[parent].subgroups && r.0.groups[parent].subgroups[name] == r.1
    ensures StateGrown(s, r.0)
  {
    var p := s.groups[parent];
    if name in p.subgroups then (s, p.subgroups[name])
    else
      var g := |s.groups|;
      (s.(groups := s.groups[parent := p.(subgroups := p.subgroups[name := g])] + [ImportColumnGroup(0, map[], map[])]), g)
  }

  /** getColumn: the column of `group` for `key`, created with the project's next cell index on first use. */
  function ColumnOf(s: ImportState, group: nat, key: Option<string>): (r: (ImportState, nat))
    requires WellFormed(s.groups, s.columns) && group < |s.groups|
    ensures WellFormed(r.0.groups, r.0.columns) && r.1 < |r.0.columns| && |r.0.groups| == |s.groups|
    ensures key in r.0.groups[group].columns && r.0.groups[group].columns[key] == r.1
    ensures r.0.rows == s.rows && StateGrown(s, r.0)
  {
    var g := s.groups[group];
    if key in g.columns then (s, g.columns[key])
    else
      var col := |s.columns|;
      (ImportState(s.groups[group := g.(columns := g.columns[key := col])], s.columns + [ImportColumn(s.nextCell, 0)],
                   s.nextCell + 1, s.rows), col)
  }

  /**
   * addCell: non-empty `text` goes into the column `key` of `group`, in the
   * first row at or after both the group's and the column's row cursor, and
   * the column's cursor moves past that row; empty text changes nothing.
   * That the row is the later of the two cursors is an assumption about
   * TreeImportUtilities.addCell, whose text is not part of this model.
   */
  function CellAdded(s: ImportState, group: nat, key: Option<string>, text: string): (s': ImportState)
    requires WellFormed(s.groups, s.columns) && group < |s.groups|
    ensures WellFormed(s'.groups, s'.columns) && |s'.groups| == |s.groups| && StateGrown(s, s')
  {
    if text == [] then s
    else
      var (s1, col) := ColumnOf(s, group, key);
      var c := s1.columns[col];
      var r := Max(s1.groups[group].nextRowIndex, c.nextRowIndex);
      s1.(columns := s1.columns[col := c.(nextRowIndex := r + 1)], rows := PutCell(s1.rows, r, c.cellIndex, text))
  }

  /** The attribute loop of a start node: each trimmed attribute value is added as a cell, in order. */
  function AttributeCellsAdded(s: ImportState, group: nat, attributes: seq<Attribute>): (s': ImportState)
    requires WellFormed(s.groups, s.columns) && group < |s.groups|
    ensures WellFormed(s'.groups, s'.columns) && |s'.groups| == |s.groups| && StateGrown(s, s')
    decreases |attributes|
  {
    if attributes == [] then s
    else
      var a := attributes[|attributes| - 1];
      var s1 := AttributeCellsAdded(s, group, attributes[..|attributes| - 1]);
      var s2 := CellAdded(s1, group, Some(ComposeName(a.prefix, a.localName)), Trim(a.value));
      StateGrownTransitive(s, s1, s2);
      s2
  }

  /** The row cursors of the columns of group `g`. */
  function ColumnCursors(groups: seq<ImportColumnGroup>, columns: seq<ImportColumn>, g: nat): set<nat>
    requires WellFormed(groups, columns) && g < |groups|
  {
    set x | x in groups[g].columns.Values :: columns[x].nextRowIndex
  }

  /** The row cursors of the subgroups of group `g`. */
  function SubgroupCursors(groups: seq<ImportColumnGroup>, columns: seq<ImportColumn>, g: nat): set<nat>
    requires WellFormed(groups, columns) && g < |groups|
  {
    set x | x in groups[g].subgroups.Values :: groups[x].nextRowIndex
  }

  /** The largest of `start` and the row cursors in `cursors`. */
  ghost function CursorMax(start: nat, cursors: set<nat>): (m: nat)
    ensures start <= m && forall x :: x in cursors ==> x <= m
    ensures m == start || m in cursors
    decreases cursors
  {
    if cursors == {} then start
    else
      var x :| x in cursors;
      var m := CursorMax(Max(start, x), cursors - {x});
      assert forall y :: y in cursors ==> y == x || y in cursors - {x};
      m
  }

  /**
   * The walk of a sub-record: an ignorable token is left alone; a start node
   * gets the subgroup of `parent` named after it, whose row cursor is first
   * raised to the parent's, and is then flattened into it.  The result is
   * where the walk stops and the new state.
   */
  ghost function SubRecordFlattened(t: seq<Token>, pos: nat, s: ImportState, parent: nat): (r: (nat, ImportState))
    requires pos < |t| && (t[pos].StartEntity? || t[pos].Ignorable?)
    requires WellFormed(s.groups, s.columns) && parent < |s.groups|
    ensures pos <= r.0 < |t| && WellFormed(r.1.groups, r.1.columns) && |s.groups| <= |r.1.groups|
    ensures t[pos].StartEntity? ==> SubtreeSpan(t, pos, r.0)
    decreases |t| - pos, 2
  {
    if t[pos].Ignorable? then (pos, s)
    else
      var (s1, g) := ColumnGroupOf(s, parent, ComposeName(t[pos].prefix, t[pos].localName));
      var G := s1.groups[g];
      var s2 := s1.(groups := s1.groups[g := G.(nextRowIndex := Max(G.nextRowIndex, s1.groups[parent].nextRowIndex))]);
      GroupFilled(t, pos, s2, g)
  }

  /**
   * The body of a sub-record whose group is `g`: its attributes, then its
   * child tokens; finally the group's row cursor becomes the largest of its
   * own and those of its columns and subgroups.
   */
  ghost function GroupFilled(t: seq<Token>, pos: nat, s: ImportState, g: nat): (r: (nat, ImportState))
    requires pos < |t| && t[pos].StartEntity?
    requires WellFormed(s.groups, s.columns) && g < |s.groups|
    ensures SubtreeSpan(t, pos, r.0) && WellFormed(r.1.groups, r.1.columns) && |s.groups| <= |r.1.groups|
    decreases |t| - pos, 1
  {
    var s1 := AttributeCellsAdded(s, g, t[pos].attributes);
    StartOpens(t, pos);
    var (e, s2) := ChildrenFlattened(t, pos, pos, s1, g);
    var G := s2.groups[g];
    var next := CursorMax(G.nextRowIndex, ColumnCursors(s2.groups, s2.columns, g));
    var next' := CursorMax(next, SubgroupCursors(s2.groups, s2.columns, g));
    (e, s2.(groups := s2.groups[g := G.(nextRowIndex := next')]))
  }

  /**
   * The child loop of the sub-record started at `c` once position `p` is
   * consumed: a child start node is a sub-record of `g`, a text value is
   * trimmed and added as a cell of `g` under its field name, and the loop
   * stops at the balancing end node or at the end of the stream.
   */
  ghost function ChildrenFlattened(t: seq<Token>, c: nat, p: nat, s: ImportState, g: nat): (r: (nat, ImportState))
    requires c <= p < |t| && OpenThrough(t, c, p + 1) && (p + 1 < |t| ==> Depth(t, c, p + 1) == 1)
    requires WellFormed(s.groups, s.columns) && g < |s.groups|
    ensures p <= r.0 && SubtreeSpan(t, c, r.0) && WellFormed(r.1.groups, r.1.columns) && |s.groups| <= |r.1.groups|
    decreases |t| - p, 0
  {
    if p + 1 == |t| then (p, s)
    else
      var tok := t[p + 1];
      if tok.StartEntity? then
        var (e, s1) := SubRecordFlattened(t, p + 1, s, g);
        ChildSpan(t, c, p + 1, e);
        ChildrenFlattened(t, c, e, s1, g)
      else if tok.EndEntity? then (p + 1, s)
      else
        PlainStep(t, c, p + 1);
        var s1 := if tok.Value? then CellAdded(s, g, tok.fieldName, Trim(tok.text)) else s;
        ChildrenFlattened(t, c, p + 1, s1, g)
  }

  /** The rows that hold at least one cell, in their order. */
  function NonEmptyRows(rows: seq<Row>): seq<Row> {
    if rows == [] then []
    else NonEmptyRows(rows[..|rows| - 1]) + (if HasCell(rows[|rows| - 1]) then [rows[|rows| - 1]] else [])
  }

  /**
   * processRecord: the record started at `pos` is flattened into fresh rows
   * under the root group, and those of its rows holding a cell are appended
   * to the rows of `s`, which are the project's.
   */
  ghost function RecordFlattened(t: seq<Token>, pos: nat, s: ImportState, root: nat): (r: (nat, ImportState))
    requires pos < |t| && t[pos].StartEntity?
    requires WellFormed(s.groups, s.columns) && root < |s.groups|
    ensures SubtreeSpan(t, pos, r.0) && WellFormed(r.1.groups, r.1.columns) && |s.groups| <= |r.1.groups|
    ensures s.rows <= r.1.rows
  {
    var (e, s1) := SubRecordFlattened(t, pos, s.(rows := []), root);
    (e, s1.(rows := s.rows + NonEmptyRows(s1.rows)))
  }

  // ---------------------------------------------------------------------
  // Rows handed to the project

  /** The row holds at least one cell. */
  predicate HasCell(row: Row) {
    exists j :: 0 <= j < |row| && row[j].Some?
  }

  /** Number of cells the row holds. */
  function CellCount(row: Row): (n: nat)
    ensures n <= |row|
  {
    if row == [] then 0 else CellCount(row[..|row| - 1]) + (if row[|row| - 1].Some? then 1 else 0)
  }

  /** Counting the cells of a row decides whether it holds any. */
  lemma {:induction false} CellCountPositive(row: Row)
    ensures CellCount(row) > 0 <==> HasCell(row)
    decreases |row|
  {
    if row != [] {
      var init := row[..|row| - 1];
      CellCountPositive(init);
      if HasCell(init) {
        var j :| 0 <= j < |init| && init[j].Some?;
        assert row[j] == init[j];
      }
      if HasCell(row) && !row[|row| - 1].Some? {
        var j :| 0 <= j < |row| && row[j].Some?;
        assert init[j] == row[j];
      }
    }
  }

  /**
   * The rows a record hands to the project are exactly its rows holding a
   * cell, none of them more often than in the record, and they keep their
   * cell text.
   */
  lemma {:induction false} NonEmptyRowsExact(rows: seq<Row>)
    ensures forall r :: r in NonEmptyRows(rows) <==> r in rows && HasCell(r)
    ensures |NonEmptyRows(rows)| <= |rows|
    ensures CleanRows(rows) ==> CleanRows(NonEmptyRows(rows))
    decreases |rows|
  {
    if rows != [] {
      var init := rows[..|rows| - 1];
      NonEmptyRowsExact(init);
      assert rows == init + [rows[|rows| - 1]];
      if CleanRows(rows) {
        assert CleanRows(init) by {
          forall i: nat, j: nat | 0 <= i < |init| && 0 <= j < |init[i]| && init[i][j].Some?
            ensures IsCellText(init[i][j].value)
          {
            assert init[i] == rows[i];
          }
        }
        var kept: seq<Row> := NonEmptyRows(rows);
        forall i: nat, j: nat | 0 <= i < |kept| && 0 <= j < |kept[i]| && kept[i][j].Some?
          ensures IsCellText(kept[i][j].value)
        {
          assert kept[i] in rows;
          var i' :| 0 <= i' < |rows| && rows[i'] == kept[i];
        }
      }
    }
  }

  lemma CleanConcat(a: seq<Row>, b: seq<Row>)
    requires CleanRows(a) && CleanRows(b)
    ensures CleanRows(a + b)
  {
    forall i, j | 0 <= i < |a + b| && 0 <= j < |(a + b)[i]| && (a + b)[i][j].Some?
      ensures IsCellText((a + b)[i][j].value)
    {
      if i >= |a| {
        assert (a + b)[i] == b[i - |a|];
      }
    }
  }

  // ---------------------------------------------------------------------
  // No cell is overwritten

  /**
   * Column bookkeeping that makes writes safe: the columns have distinct
   * cell indices, all below the project's next cell index.
   */
  ghost predicate ModelConsistent(s: ImportState) {
    WellFormed(s.groups, s.columns) &&
    (forall i, j :: 0 <= i < j < |s.columns| ==> s.columns[i].cellIndex != s.columns[j].cellIndex) &&
    (forall i :: 0 <= i < |s.columns| ==> s.columns[i].cellIndex < s.nextCell)
  }

  /**
   * The write invariant: besides ModelConsistent, every cell holds trimmed
   * non-empty text, no cell uses an index not yet handed out, and every row
   * at or past a column's row cursor is still empty in that column's cell.
   */
  ghost predicate Consistent(s: ImportState) {
    ModelConsistent(s) && CleanRows(s.rows) &&
    (forall r: nat, j: nat :: CellAt(s.rows, r, j).Some? ==> j < s.nextCell) &&
    (forall i, r: nat :: 0 <= i < |s.columns| && s.columns[i].nextRowIndex <= r ==>
                         CellAt(s.rows, r, s.columns[i].cellIndex).None?)
  }

  /** The column `key` of group `g` exists and some row holds `text` in its cell. */
  ghost predicate CellWritten(s: ImportState, g: nat, key: Option<string>, text: string) {
    g < |s.groups| && key in s.groups[g].columns && s.groups[g].columns[key] < |s.columns| &&
    exists r: nat :: CellAt(s.rows, r, s.columns[s.groups[g].columns[key]].cellIndex) == Some(text)
  }

  /** A written cell stays written while the state only grows and keeps its cells. */
  lemma CellWrittenKept(s: ImportState, s': ImportState, g: nat, key: Option<string>, text: string)
    requires CellWritten(s, g, key, text) && StateGrown(s, s') && CellsKept(s.rows, s'.rows)
    requires WellFormed(s'.groups, s'.columns)
    ensures CellWritten(s', g, key, text)
  {
    var r: nat :| CellAt(s.rows, r, s.columns[s.groups[g].columns[key]].cellIndex) == Some(text);
    assert CellAt(s'.rows, r, s'.columns[s'.groups[g].columns[key]].cellIndex) == Some(text);
  }

  /** A new column takes the next cell index, which no row uses yet. */
  lemma ColumnOfConsistent(s: ImportState, group: nat, key: Option<string>)
    requires Consistent(s) && group < |s.groups|
    ensures Consistent(ColumnOf(s, group, key).0)
  {
  }

  /**
   * addCell writes into an empty slot only: the row it picks is at or past
   * the column's cursor, and that slot is empty by the write invariant.
   */
  lemma CellAddedIntoEmptySlot(s: ImportState, group: nat, key: Option<string>, text: string)
    requires Consistent(s) && group < |s.groups| && text != []
    ensures var (s1, col) := ColumnOf(s, group, key);
            var r := Max(s1.groups[group].nextRowIndex, s1.columns[col].nextRowIndex);
            CellAt(s.rows, r, s1.columns[col].cellIndex).None?
  {
    ColumnOfConsistent(s, group, key);
  }

  /**
   * Adding trimmed text keeps the write invariant and every cell already
   * written, and non-empty text then sits in the column for `key`.
   */
  lemma CellAddedKeeps(s: ImportState, group: nat, key: Option<string>, text: string)
    requires Consistent(s) && group < |s.groups| && (text == [] || IsCellText(text))
    ensures var s' := CellAdded(s, group, key, text);
            Consistent(s') && CellsKept(s.rows, s'.rows) &&
            (text != [] ==> CellWritten(s', group, key, text))
  {
    if text != [] {
      var (s1, col) := ColumnOf(s, group, key);
      ColumnOfConsistent(s, group, key);
      CellAddedIntoEmptySlot(s, group, key, text);
      var c := s1.columns[col];
      var r := Max(s1.groups[group].nextRowIndex, c.nextRowIndex);
      var s' := CellAdded(s, group, key, text);
      assert s' == s1.(columns := s1.columns[col := c.(nextRowIndex := r + 1)], rows := PutCell(s1.rows, r, c.cellIndex, text));
      PutCellAt(s1.rows, r, c.cellIndex, text);
      PutCellClean(s1.rows, r, c.cellIndex, text);
      assert CellAt(s'.rows, r, c.cellIndex) == Some(text);
      forall i, r': nat | 0 <= i < |s'.columns| && s'.columns[i].nextRowIndex <= r'
        ensures CellAt(s'.rows, r', s'.columns[i].cellIndex).None?
      {
        if i != col {
          assert s'.columns[i] == s1.columns[i];
        }
      }
    }
  }

  /** The attribute loop keeps the write invariant and every cell already written. */
  lemma {:induction false} AttributeCellsKeep(s: ImportState, g: nat, attributes: seq<Attribute>)
    requires Consistent(s) && g < |s.groups|
    ensures var s' := AttributeCellsAdded(s, g, attributes);
            Consistent(s') && CellsKept(s.rows, s'.rows)
    decreases |attributes|
  {
    if attributes != [] {
      var a := attributes[|attributes| - 1];
      var s1 := AttributeCellsAdded(s, g, attributes[..|attributes| - 1]);
      AttributeCellsKeep(s, g, attributes[..|attributes| - 1]);
      CellAddedKeeps(s1, g, Some(ComposeName(a.prefix, a.localName)), Trim(a.value));
    }
  }

  /**
   * Each attribute whose trimmed value is non-blank has a cell with that
   * text in the column of `g` named after the attribute.
   */
  ghost predicate AttributesWritten(s: ImportState, g: nat, attributes: seq<Attribute>) {
    forall k :: 0 <= k < |attributes| && Trim(attributes[k].value) != [] ==>
      CellWritten(s, g, Some(ComposeName(attributes[k].prefix, attributes[k].localName)), Trim(attributes[k].value))
  }

  /** The attribute loop writes a cell for each attribute with a non-blank trimmed value. */
  lemma {:induction false} AttributeCellsWritten(s: ImportState, g: nat, attributes: seq<Attribute>)
    requires Consistent(s) && g < |s.groups|
    ensures AttributesWritten(AttributeCellsAdded(s, g, attributes), g, attributes)
    decreases |attributes|
  {
    if attributes != [] {
      var init := attributes[..|attributes| - 1];
      AttributeCellsWritten(s, g, init);
      AttributeCellsKeep(s, g, init);
      AttributeWrittenStep(AttributeCellsAdded(s, g, init), g, attributes);
    }
  }

  /** One more attribute: its cell is written and those of the attributes before it stay written. */
  lemma AttributeWrittenStep(s: ImportState, g: nat, attributes: seq<Attribute>)
    requires attributes != [] && Consistent(s) && g < |s.groups|
    requires AttributesWritten(s, g, attributes[..|attributes| - 1])
    ensures var a := attributes[|attributes| - 1];
            AttributesWritten(CellAdded(s, g, Some(ComposeName(a.prefix, a.localName)), Trim(a.value)), g, attributes)
  {
    var a := attributes[|attributes| - 1];
    var s' := CellAdded(s, g, Some(ComposeName(a.prefix, a.localName)), Trim(a.value));
    CellAddedKeeps(s, g, Some(ComposeName(a.prefix, a.localName)), Trim(a.value));
    AttributesWrittenKept(s, s', g, attributes[..|attributes| - 1]);
    AttributesWrittenSnoc(s', g, attributes);
  }

  /** The cells of the attributes before the last one and that of the last one make those of all. */
  lemma AttributesWrittenSnoc(s: ImportState, g: nat, attributes: seq<Attribute>)
    requires attributes != [] && AttributesWritten(s, g, attributes[..|attributes| - 1])
    requires var a := attributes[|attributes| - 1];
             Trim(a.value) != [] ==> CellWritten(s, g, Some(ComposeName(a.prefix, a.localName)), Trim(a.value))
    ensures AttributesWritten(s, g, attributes)
  {
    var init := attributes[..|attributes| - 1];
    forall k | 0 <= k < |attributes| - 1 && Trim(attributes[k].value) != []
      ensures CellWritten(s, g, Some(ComposeName(attributes[k].prefix, attributes[k].localName)), Trim(attributes[k].value))
    {
      assert attributes[k] == init[k];
    }
  }

  /** Cells written for attributes stay written while the state only grows and keeps its cells. */
  lemma AttributesWrittenKept(s: ImportState, s': ImportState, g: nat, attributes: seq<Attribute>)
    requires StateGrown(s, s') && CellsKept(s.rows, s'.rows) && WellFormed(s'.groups, s'.columns)
    requires AttributesWritten(s, g, attributes)
    ensures AttributesWritten(s', g, attributes)
  {
    forall k | 0 <= k < |attributes| && Trim(attributes[k].value) != []
      ensures CellWritten(s', g, Some(ComposeName(attributes[k].prefix, attributes[k].localName)), Trim(attributes[k].value))
    {
      CellWrittenKept(s, s', g, Some(ComposeName(attributes[k].prefix, attributes[k].localName)), Trim(attributes[k].value));
    }
  }

  /** Attributes whose values are all blank add nothing. */
  lemma {:induction false} BlankAttributesAddNothing(s: ImportState, g: nat, attributes: seq<Attribute>)
    requires WellFormed(s.groups, s.columns) && g < |s.groups|
    requires forall k :: 0 <= k < |attributes| ==> Trim(attributes[k].value) == []
    ensures AttributeCellsAdded(s, g, attributes) == s
    decreases |attributes|
  {
    if attributes != [] {
      BlankAttributesAddNothing(s, g, attributes[..|attributes| - 1]);
    }
  }

  lemma StateGrownTransitive(s0: ImportState, s1: ImportState, s2: ImportState)
    requires StateGrown(s0, s1) && StateGrown(s1, s2)
    ensures StateGrown(s0, s2)
  {
    GrownTransitive(s0.groups, s0.columns, s1.groups, s1.columns, s2.groups, s2.columns);
  }

  lemma CellsKeptTransitive(a: seq<Row>, b: seq<Row>, c: seq<Row>)
    requires CellsKept(a, b) && CellsKept(b, c)
    ensures CellsKept(a, c)
  {
  }

  /** Moving a group's row cursor forward keeps the write invariant and the rows. */
  lemma CursorRaised(s: ImportState, g: nat, n: nat)
    requires Consistent(s) && g < |s.groups| && s.groups[g].nextRowIndex <= n
    ensures var s' := s.(groups := s.groups[g := s.groups[g].(nextRowIndex := n)]);
            Consistent(s') && StateGrown(s, s') && CellsKept(s.rows, s'.rows)
  {
  }

  /** Flattening a sub-record keeps the write invariant and every cell already written. */
  lemma {:induction false} SubRecordKeeps(t: seq<Token>, pos: nat, s: ImportState, parent: nat)
    requires pos < |t| && (t[pos].StartEntity? || t[pos].Ignorable?)
    requires Consistent(s) && parent < |s.groups|
    ensures var s' := SubRecordFlattened(t, pos, s, parent).1;
            Consistent(s') && CellsKept(s.rows, s'.rows) && StateGrown(s, s')
    decreases |t| - pos, 3
  {
    if t[pos].StartEntity? {
      var (s1, g) := ColumnGroupOf(s, parent, ComposeName(t[pos].prefix, t[pos].localName));
      var G := s1.groups[g];
      var s2 := s1.(groups := s1.groups[g := G.(nextRowIndex := Max(G.nextRowIndex, s1.groups[parent].nextRowIndex))]);
      CursorRaised(s1, g, Max(G.nextRowIndex, s1.groups[parent].nextRowIndex));
      GroupFilledKeeps(t, pos, s2, g);
      StateGrownTransitive(s, s1, s2);
      StateGrownTransitive(s, s2, SubRecordFlattened(t, pos, s, parent).1);
    }
  }

  /** Filling a group keeps the write invariant and every cell already written. */
  lemma {:induction false} GroupFilledKeeps(t: seq<Token>, pos: nat, s: ImportState, g: nat)
    requires pos < |t| && t[pos].StartEntity?
    requires Consistent(s) && g < |s.groups|
    ensures var s' := GroupFilled(t, pos, s, g).1;
            Consistent(s') && CellsKept(s.rows, s'.rows) && StateGrown(s, s')
    decreases |t| - pos, 2
  {
    var s1 := AttributeCellsAdded(s, g, t[pos].attributes);
    AttributeCellsKeep(s, g, t[pos].attributes);
    StartOpens(t, pos);
    var (e, s2) := ChildrenFlattened(t, pos, pos, s1, g);
    ChildrenKeep(t, pos, pos, s1, g);
    var G := s2.groups[g];
    var next := CursorMax(G.nextRowIndex, ColumnCursors(s2.groups, s2.columns, g));
    var next' := CursorMax(next, SubgroupCursors(s2.groups, s2.columns, g));
    CursorRaised(s2, g, next');
    var s3 := s2.(groups := s2.groups[g := G.(nextRowIndex := next')]);
    assert GroupFilled(t, pos, s, g).1 == s3;
    StateGrownTransitive(s, s1, s2);
    StateGrownTransitive(s, s2, s3);
    CellsKeptTransitive(s.rows, s1.rows, s2.rows);
  }

  /** The child loop keeps the write invariant and every cell already written. */
  lemma {:induction false} ChildrenKeep(t: seq<Token>, c: nat, p: nat, s: ImportState, g: nat)
    requires c <= p < |t| && OpenThrough(t, c, p + 1) && (p + 1 < |t| ==> Depth(t, c, p + 1) == 1)
    requires Consistent(s) && g < |s.groups|
    ensures var s' := ChildrenFlattened(t, c, p, s, g).1;
            Consistent(s') && CellsKept(s.rows, s'.rows) && StateGrown(s, s')
    decreases |t| - p, 1
  {
    if p + 1 < |t| {
      var tok := t[p + 1];
      if tok.StartEntity? {
        ChildStartKeeps(t, c, p, s, g);
      } else if !tok.EndEntity? {
        ChildPlainKeeps(t, c, p, s, g);
      }
    }
  }

  /** ChildrenKeep when the next token is not a start or end node. */
  lemma {:induction false} ChildPlainKeeps(t: seq<Token>, c: nat, p: nat, s: ImportState, g: nat)
    requires c <= p && p + 1 < |t| && OpenThrough(t, c, p + 1) && Depth(t, c, p + 1) == 1
    requires !t[p + 1].StartEntity? && !t[p + 1].EndEntity?
    requires Consistent(s) && g < |s.groups|
    ensures var s' := ChildrenFlattened(t, c, p, s, g).1;
            Consistent(s') && CellsKept(s.rows, s'.rows) && StateGrown(s, s')
    decreases |t| - p, 0
  {
    var tok := t[p + 1];
    PlainStep(t, c, p + 1);
    var s1 := if tok.Value? then CellAdded(s, g, tok.fieldName, Trim(tok.text)) else s;
    if tok.Value? {
      CellAddedKeeps(s, g, tok.fieldName, Trim(tok.text));
    }
    ChildrenKeep(t, c, p + 1, s1, g);
    assert ChildrenFlattened(t, c, p, s, g) == ChildrenFlattened(t, c, p + 1, s1, g);
    var s2 := ChildrenFlattened(t, c, p + 1, s1, g).1;
    StateGrownTransitive(s, s1, s2);
    CellsKeptTransitive(s.rows, s1.rows, s2.rows);
  }

  /** ChildrenKeep when the next token starts a child node. */
  lemma {:induction false} ChildStartKeeps(t: seq<Token>, c: nat, p: nat, s: ImportState, g: nat)
    requires c <= p && p + 1 < |t| && OpenThrough(t, c, p + 1) && Depth(t, c, p + 1) == 1 && t[p + 1].StartEntity?
    requires Consistent(s) && g < |s.groups|
    ensures var s' := ChildrenFlattened(t, c, p, s, g).1;
            Consistent(s') && CellsKept(s.rows, s'.rows) && StateGrown(s, s')
    decreases |t| - p, 0
  {
    var r1 := SubRecordFlattened(t, p + 1, s, g);
    SubRecordKeeps(t, p + 1, s, g);
    ChildStartStep(t, c, p, s, g);
    ChildrenKeep(t, c, r1.0, r1.1, g);
    var s2 := ChildrenFlattened(t, c, r1.0, r1.1, g).1;
    StateGrownTransitive(s, r1.1, s2);
    CellsKeptTransitive(s.rows, r1.1.rows, s2.rows);
  }

  /**
   * Each text value directly inside the node started at `c` (at depth one)
   * after position `a` up to `e` whose trimmed text is non-blank has a cell
   * with that text in the column of `g` for its field name.
   */
  ghost predicate ValuesWritten(s: ImportState, g: nat, t: seq<Token>, c: nat, a: nat, e: nat)
    requires c <= a && e < |t|
  {
    forall q :: a < q <= e && Depth(t, c, q) == 1 && t[q].Value? && Trim(t[q].text) != [] ==>
      CellWritten(s, g, t[q].fieldName, Trim(t[q].text))
  }

  /** Cells written for text values stay written while the state only grows and keeps its cells. */
  lemma ValuesWrittenKept(t: seq<Token>, c: nat, a: nat, e: nat, s: ImportState, s': ImportState, g: nat)
    requires c <= a && e < |t|
    requires StateGrown(s, s') && CellsKept(s.rows, s'.rows) && WellFormed(s'.groups, s'.columns)
    requires ValuesWritten(s, g, t, c, a, e)
    ensures ValuesWritten(s', g, t, c, a, e)
  {
    forall q | a < q <= e && Depth(t, c, q) == 1 && t[q].Value? && Trim(t[q].text) != []
      ensures CellWritten(s', g, t[q].fieldName, Trim(t[q].text))
    {
      CellWrittenKept(s, s', g, t[q].fieldName, Trim(t[q].text));
    }
  }

  /** Positions holding no direct text value can be added in front of those whose cells are written. */
  lemma ValuesWrittenSkip(s: ImportState, g: nat, t: seq<Token>, c: nat, a: nat, b: nat, e: nat)
    requires c <= a <= b <= e < |t|
    requires forall q :: a < q <= b ==> Depth(t, c, q) != 1 || !t[q].Value?
    requires ValuesWritten(s, g, t, c, b, e)
    ensures ValuesWritten(s, g, t, c, a, e)
  {
  }

  /** A position whose text value, if any, has its cell written can be added in front of the others. */
  lemma ValuesWrittenExtend(s: ImportState, g: nat, t: seq<Token>, c: nat, a: nat, e: nat)
    requires c <= a < e < |t|
    requires Depth(t, c, a + 1) == 1 && t[a + 1].Value? && Trim(t[a + 1].text) != [] ==>
               CellWritten(s, g, t[a + 1].fieldName, Trim(t[a + 1].text))
    requires ValuesWritten(s, g, t, c, a + 1, e)
    ensures ValuesWritten(s, g, t, c, a, e)
  {
  }

  /** The child loop writes a cell for each text value directly inside the node that has non-blank trimmed text. */
  lemma {:induction false} ChildValuesWritten(t: seq<Token>, c: nat, p: nat, s: ImportState, g: nat)
    requires c <= p < |t| && OpenThrough(t, c, p + 1) && (p + 1 < |t| ==> Depth(t, c, p + 1) == 1)
    requires Consistent(s) && g < |s.groups|
    ensures var (e, s') := ChildrenFlattened(t, c, p, s, g);
            ValuesWritten(s', g, t, c, p, e)
    decreases |t| - p, 2
  {
    if p + 1 < |t| && t[p + 1].StartEntity? {
      ChildNodeValuesWritten(t, c, p, s, g);
    } else if p + 1 < |t| && !t[p + 1].EndEntity? {
      ChildPlainValuesWritten(t, c, p, s, g);
    } else {
      ChildEndValuesWritten(t, c, p, s, g);
    }
  }

  /** ChildValuesWritten when the loop stops: at the end of the stream or on the balancing end node. */
  lemma ChildEndValuesWritten(t: seq<Token>, c: nat, p: nat, s: ImportState, g: nat)
    requires c <= p < |t| && OpenThrough(t, c, p + 1) && (p + 1 < |t| ==> Depth(t, c, p + 1) == 1)
    requires p + 1 == |t| || t[p + 1].EndEntity?
    requires WellFormed(s.groups, s.columns) && g < |s.groups|
    ensures var (e, s') := ChildrenFlattened(t, c, p, s, g);
            ValuesWritten(s', g, t, c, p, e)
  {
    var e := if p + 1 == |t| then p else p + 1;
    assert ChildrenFlattened(t, c, p, s, g) == (e, s);
    assert forall q :: p < q <= e ==> !t[q].Value?;
  }

  /** ChildValuesWritten when the next token is a text value or ignorable. */
  lemma {:induction false} ChildPlainValuesWritten(t: seq<Token>, c: nat, p: nat, s: ImportState, g: nat)
    requires c <= p && p + 1 < |t| && OpenThrough(t, c, p + 1) && Depth(t, c, p + 1) == 1
    requires !t[p + 1].StartEntity? && !t[p + 1].EndEntity?
    requires Consistent(s) && g < |s.groups|
    ensures var (e, s') := ChildrenFlattened(t, c, p, s, g);
            ValuesWritten(s', g, t, c, p, e)
    decreases |t| - p, 0
  {
    var tok := t[p + 1];
    PlainStep(t, c, p + 1);
    var s1 := if tok.Value? then CellAdded(s, g, tok.fieldName, Trim(tok.text)) else s;
    if tok.Value? {
      CellAddedKeeps(s, g, tok.fieldName, Trim(tok.text));
    }
    ChildValuesWritten(t, c, p + 1, s1, g);
    ChildrenKeep(t, c, p + 1, s1, g);
    var r := ChildrenFlattened(t, c, p + 1, s1, g);
    assert ChildrenFlattened(t, c, p, s, g) == r;
    if tok.Value? && Trim(tok.text) != [] {
      CellWrittenKept(s1, r.1, g, tok.fieldName, Trim(tok.text));
    }
    ValuesWrittenExtend(r.1, g, t, c, p, r.0);
  }

  /** ChildValuesWritten when the next token starts a child node, which holds no direct text value. */
  lemma {:induction false} ChildNodeValuesWritten(t: seq<Token>, c: nat, p: nat, s: ImportState, g: nat)
    requires c <= p && p + 1 < |t| && OpenThrough(t, c, p + 1) && Depth(t, c, p + 1) == 1 && t[p + 1].StartEntity?
    requires Consistent(s) && g < |s.groups|
    ensures var (e, s') := ChildrenFlattened(t, c, p, s, g);
            ValuesWritten(s', g, t, c, p, e)
    decreases |t| - p, 1
  {
    var r1 := SubRecordFlattened(t, p + 1, s, g);
    SubRecordKeeps(t, p + 1, s, g);
    ChildSpan(t, c, p + 1, r1.0);
    ChildStartStep(t, c, p, s, g);
    ChildRestValuesWritten(t, c, p, r1.0, r1.1, g);
  }

  /** The rest of ChildNodeValuesWritten, once the child node spanning `p + 1` to `e` is flattened. */
  lemma {:induction false} ChildRestValuesWritten(t: seq<Token>, c: nat, p: nat, e: nat, s: ImportState, g: nat)
    requires c <= p < e < |t| && OpenThrough(t, c, e + 1) && (e + 1 < |t| ==> Depth(t, c, e + 1) == 1)
    requires forall k :: p + 1 < k <= e ==> Depth(t, c, k) >= 2
    requires t[p + 1].StartEntity?
    requires Consistent(s) && g < |s.groups|
    ensures var r := ChildrenFlattened(t, c, e, s, g);
            ValuesWritten(r.1, g, t, c, p, r.0)
    decreases |t| - p, 0
  {
    ChildValuesWritten(t, c, e, s, g);
    var r := ChildrenFlattened(t, c, e, s, g);
    ValuesWrittenSkip(r.1, g, t, c, p, e, r.0);
  }

  /** The child loop over a child start node: the sub-record is flattened, then the loop goes on after it. */
  lemma ChildStartStep(t: seq<Token>, c: nat, p: nat, s: ImportState, g: nat)
    requires c <= p && p + 1 < |t| && OpenThrough(t, c, p + 1) && Depth(t, c, p + 1) == 1 && t[p + 1].StartEntity?
    requires WellFormed(s.groups, s.columns) && g < |s.groups|
    ensures var r := SubRecordFlattened(t, p + 1, s, g);
            OpenThrough(t, c, r.0 + 1) && (r.0 + 1 < |t| ==> Depth(t, c, r.0 + 1) == 1) &&
            ChildrenFlattened(t, c, p, s, g) == ChildrenFlattened(t, c, r.0, r.1, g)
  {
    ChildSpan(t, c, p + 1, SubRecordFlattened(t, p + 1, s, g).0);
  }

  /**
   * Filling the group `g` of the start node at `pos` writes a cell for each
   * of its attributes and direct text values with non-blank trimmed text.
   */
  lemma GroupFilledCells(t: seq<Token>, pos: nat, s: ImportState, g: nat)
    requires pos < |t| && t[pos].StartEntity?
    requires Consistent(s) && g < |s.groups|
    ensures var (e, s') := GroupFilled(t, pos, s, g);
            AttributesWritten(s', g, t[pos].attributes) && ValuesWritten(s', g, t, pos, pos, e)
  {
    var s1 := AttributeCellsAdded(s, g, t[pos].attributes);
    AttributeCellsKeep(s, g, t[pos].attributes);
    AttributeCellsWritten(s, g, t[pos].attributes);
    StartOpens(t, pos);
    var (e, s2) := ChildrenFlattened(t, pos, pos, s1, g);
    ChildrenKeep(t, pos, pos, s1, g);
    ChildValuesWritten(t, pos, pos, s1, g);
    AttributesWrittenKept(s1, s2, g, t[pos].attributes);
    var G := s2.groups[g];
    var next := CursorMax(G.nextRowIndex, ColumnCursors(s2.groups, s2.columns, g));
    var next' := CursorMax(next, SubgroupCursors(s2.groups, s2.columns, g));
    CursorRaised(s2, g, next');
    var s3 := s2.(groups := s2.groups[g := G.(nextRowIndex := next')]);
    assert GroupFilled(t, pos, s, g) == (e, s3);
    AttributesWrittenKept(s2, s3, g, t[pos].attributes);
    ValuesWrittenKept(t, pos, pos, e, s2, s3, g);
  }

  /**
   * Flattening the start node at `pos` under `parent` writes each of its
   * non-blank trimmed attribute values, and each non-blank trimmed text value
   * directly inside it, as a cell of its column in the node's subgroup of
   * `parent`.
   */
  lemma SubRecordCells(t: seq<Token>, pos: nat, s: ImportState, parent: nat)
    requires pos < |t| && t[pos].StartEntity?
    requires Consistent(s) && parent < |s.groups|
    ensures var (e, s') := SubRecordFlattened(t, pos, s, parent);
            var name := ComposeName(t[pos].prefix, t[pos].localName);
            name in s'.groups[parent].subgroups &&
            AttributesWritten(s', s'.groups[parent].subgroups[name], t[pos].attributes) &&
            ValuesWritten(s', s'.groups[parent].subgroups[name], t, pos, pos, e)
  {
    var name := ComposeName(t[pos].prefix, t[pos].localName);
    var (s1, g) := ColumnGroupOf(s, parent, name);
    var G := s1.groups[g];
    var n := Max(G.nextRowIndex, s1.groups[parent].nextRowIndex);
    var s2 := s1.(groups := s1.groups[g := G.(nextRowIndex := n)]);
    assert Consistent(s1);
    CursorRaised(s1, g, n);
    assert s2.groups[parent].subgroups == s1.groups[parent].subgroups;
    GroupFilledCells(t, pos, s2, g);
    GroupFilledKeeps(t, pos, s2, g);
  }

  /** Any upper bound of `start` and `cursors` that is one of them is their largest. */
  lemma CursorMaxUnique(start: nat, cursors: set<nat>, m: nat)
    requires start <= m && (forall x :: x in cursors ==> x <= m) && (m == start || m in cursors)
    ensures m == CursorMax(start, cursors)
  {
  }

  /**
   * Once a group is filled, its row cursor is at or past the cursor of each
   * of its columns and subgroups, so the next sibling record starts below
   * every row the group has used.
   */
  lemma GroupFilledCursor(t: seq<Token>, pos: nat, s: ImportState, g: nat)
    requires pos < |t| && t[pos].StartEntity?
    requires WellFormed(s.groups, s.columns) && g < |s.groups|
    ensures var s' := GroupFilled(t, pos, s, g).1;
            var G := s'.groups[g];
            (forall k :: k in G.columns ==> s'.columns[G.columns[k]].nextRowIndex <= G.nextRowIndex) &&
            (forall k :: k in G.subgroups ==> s'.groups[G.subgroups[k]].nextRowIndex <= G.nextRowIndex)
  {
    var s1 := AttributeCellsAdded(s, g, t[pos].attributes);
    StartOpens(t, pos);
    var (e, s2) := ChildrenFlattened(t, pos, pos, s1, g);
    var G := s2.groups[g];
    var next := CursorMax(G.nextRowIndex, ColumnCursors(s2.groups, s2.columns, g));
    var next' := CursorMax(next, SubgroupCursors(s2.groups, s2.columns, g));
    var s3 := s2.(groups := s2.groups[g := G.(nextRowIndex := next')]);
    assert GroupFilled(t, pos, s, g).1 == s3;
    forall k | k in G.columns
      ensures s2.columns[G.columns[k]].nextRowIndex <= next'
    {
      assert s2.columns[G.columns[k]].nextRowIndex in ColumnCursors(s2.groups, s2.columns, g);
    }
    forall k | k in G.subgroups
      ensures s3.groups[G.subgroups[k]].nextRowIndex <= next'
    {
      assert s2.groups[G.subgroups[k]].nextRowIndex in SubgroupCursors(s2.groups, s2.columns, g);
    }
  }

  /**
   * A sub-record's group starts at or below its parent's row cursor at entry,
   * and ends at or past each of its columns' and subgroups' cursors.
   */
  lemma SubRecordCursor(t: seq<Token>, pos: nat, s: ImportState, parent: nat)
    requires pos < |t| && t[pos].StartEntity?
    requires Consistent(s) && parent < |s.groups|
    ensures var s' := SubRecordFlattened(t, pos, s, parent).1;
            var name := ComposeName(t[pos].prefix, t[pos].localName);
            name in s'.groups[parent].subgroups &&
            var g := s'.groups[parent].subgroups[name];
            var G := s'.groups[g];
            G.nextRowIndex >= s.groups[parent].nextRowIndex &&
            (forall k :: k in G.columns ==> s'.columns[G.columns[k]].nextRowIndex <= G.nextRowIndex) &&
            (forall k :: k in G.subgroups ==> s'.groups[G.subgroups[k]].nextRowIndex <= G.nextRowIndex)
  {
    var name := ComposeName(t[pos].prefix, t[pos].localName);
    var (s1, g) := ColumnGroupOf(s, parent, name);
    var G := s1.groups[g];
    var n := Max(G.nextRowIndex, s1.groups[parent].nextRowIndex);
    var s2 := s1.(groups := s1.groups[g := G.(nextRowIndex := n)]);
    CursorRaised(s1, g, n);
    assert s2.groups[parent].subgroups == s1.groups[parent].subgroups;
    assert s2.groups[parent].nextRowIndex == s.groups[parent].nextRowIndex;
    GroupFilledKeeps(t, pos, s2, g);
    GroupFilledCursor(t, pos, s2, g);
  }

  /** The attributes of the start node at `pos`, or a direct text value inside it up to `e`, hold non-blank text. */
  ghost predicate NodeHasText(t: seq<Token>, pos: nat, e: nat)
    requires pos <= e < |t| && t[pos].StartEntity?
  {
    (exists k :: 0 <= k < |t[pos].attributes| && Trim(t[pos].attributes[k].value) != []) ||
    (exists q :: pos < q <= e && Depth(t, pos, q) == 1 && t[q].Value? && Trim(t[q].text) != [])
  }

  /** A written cell makes its row one the record hands to the project. */
  lemma CellWrittenHasRow(s: ImportState, g: nat, key: Option<string>, text: string)
    requires CellWritten(s, g, key, text)
    ensures NonEmptyRows(s.rows) != []
  {
    var r: nat :| CellAt(s.rows, r, s.columns[s.groups[g].columns[key]].cellIndex) == Some(text);
    assert HasCell(s.rows[r]);
    NonEmptyRowsExact(s.rows);
    assert s.rows[r] in NonEmptyRows(s.rows);
  }

  /**
   * A record whose start node has a non-blank attribute value or direct
   * text value appends at least one row to the project.
   */
  lemma RecordWithTextAddsRow(t: seq<Token>, pos: nat, s: ImportState, root: nat)
    requires pos < |t| && t[pos].StartEntity?
    requires ModelConsistent(s) && root < |s.groups|
    ensures var (e, s') := RecordFlattened(t, pos, s, root);
            NodeHasText(t, pos, e) ==> |s'.rows| > |s.rows|
  {
    var s0 := s.(rows := []);
    assert Consistent(s0);
    var (e, s1) := SubRecordFlattened(t, pos, s0, root);
    assert RecordFlattened(t, pos, s, root).0 == e;
    assert RecordFlattened(t, pos, s, root).1.rows == s.rows + NonEmptyRows(s1.rows);
    SubRecordCells(t, pos, s0, root);
    if NodeHasText(t, pos, e) {
      TextWrittenHasRow(t, pos, e, s1, s1.groups[root].subgroups[ComposeName(t[pos].prefix, t[pos].localName)]);
    }
  }

  /** A node with non-blank text whose cells are written has written a row holding a cell. */
  lemma TextWrittenHasRow(t: seq<Token>, pos: nat, e: nat, s: ImportState, g: nat)
    requires pos <= e < |t| && t[pos].StartEntity? && NodeHasText(t, pos, e)
    requires AttributesWritten(s, g, t[pos].attributes) && ValuesWritten(s, g, t, pos, pos, e)
    ensures NonEmptyRows(s.rows) != []
  {
    var attributes := t[pos].attributes;
    if k :| 0 <= k < |attributes| && Trim(attributes[k].value) != [] {
      CellWrittenHasRow(s, g, Some(ComposeName(attributes[k].prefix, attributes[k].localName)), Trim(attributes[k].value));
    } else {
      var q :| pos < q <= e && Depth(t, pos, q) == 1 && t[q].Value? && Trim(t[q].text) != [];
      CellWrittenHasRow(s, g, t[q].fieldName, Trim(t[q].text));
    }
  }

  /**
   * A record keeps the column bookkeeping consistent and the model only
   * grows, and the project's rows keep holding only trimmed non-empty text.
   */
  lemma RecordFlattenedKeeps(t: seq<Token>, pos: nat, s: ImportState, root: nat)
    requires pos < |t| && t[pos].StartEntity?
    requires ModelConsistent(s) && CleanRows(s.rows) && root < |s.groups|
    ensures var s' := RecordFlattened(t, pos, s, root).1;
            ModelConsistent(s') && CleanRows(s'.rows) && StateGrown(s, s')
  {
    var s0 := s.(rows := []);
    assert Consistent(s0);
    var (e, s1) := SubRecordFlattened(t, pos, s0, root);
    SubRecordKeeps(t, pos, s0, root);
    NonEmptyRowsExact(s1.rows);
    CleanConcat(s.rows, NonEmptyRows(s1.rows));
  }
}
