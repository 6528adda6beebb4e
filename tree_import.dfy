/**
 * The tree import as the routines of XmlImportUtilities perform it: a cursor
 * walks the token stream while the column model, the record being built and
 * the project are updated in place.  Each routine is proved to leave exactly
 * the state that the reference functions of TreeFlattening and
 * TreeRecordSearch compute from the state it started in, so what those
 * modules prove about the functions holds of the routines.
 */
module TreeImport {
  import opened Wrappers
  import opened TreeReader
  import opened XmlRecordDetection
  import opened TreeFlattening
  import opened TreeRecordSearch

  /**
   * The column groups and columns created while importing, named by their
   * index; each group's and column's row cursor is updated in place.
   */
  class ColumnModel {
    var groups: seq<ImportColumnGroup>
    var columns: seq<ImportColumn>

    ghost predicate Valid()
      reads this
    {
      WellFormed(groups, columns)
    }

    /** A model holding only the root group, at index 0, with no rows used yet. */
    constructor ()
      ensures groups == [ImportColumnGroup(0, map[], map[])] && columns == [] && Valid()
    {
      groups := [ImportColumnGroup(0, map[], map[])];
      columns := [];
    }
  }

  /** The rows one record spreads over, before they are handed to the project. */
  class ImportRecord {
    var rows: seq<Row>

    constructor ()
      ensures rows == []
    {
      rows := [];
    }
  }

  /** The project's rows and the next free cell index of its column model. */
  class Project {
    var rows: seq<Row>
    var nextCellIndex: nat

    constructor (rows: seq<Row>, nextCellIndex: nat)
      ensures this.rows == rows && this.nextCellIndex == nextCellIndex
    {
      this.rows := rows;
      this.nextCellIndex := nextCellIndex;
    }
  }

  /** The import state while a record is built: the column model, the next cell index and the record's rows. */
  ghost function RecordState(project: Project, model: ColumnModel, record: ImportRecord): ImportState
    reads project, model, record
  {
    ImportState(model.groups, model.columns, project.nextCellIndex, record.rows)
  }

  /** The import state during the record search: the column model, the next cell index and the project's rows. */
  ghost function ProjectState(project: Project, model: ColumnModel): ImportState
    reads project, model
  {
    ImportState(model.groups, model.columns, project.nextCellIndex, project.rows)
  }

  // ---------------------------------------------------------------------
  // Column groups, columns and cells

  /** getColumnGroup: the subgroup of `parent` for `name`, created when absent. */
  method GetColumnGroup(model: ColumnModel, parent: nat, name: string) returns (g: nat)
    requires model.Valid() && parent < |model.groups|
    modifies model
    ensures var r := ColumnGroupOf(ImportState(old(model.groups), old(model.columns), 0, []), parent, name);
            model.groups == r.0.groups && model.columns == old(model.columns) && g == r.1
  {
    var p := model.groups[parent];
    if name in p.subgroups {
      g := p.subgroups[name];
    } else {
      g := |model.groups|;
      model.groups := model.groups[parent := p.(subgroups := p.subgroups[name := g])] + [ImportColumnGroup(0, map[], map[])];
    }
  }

  /** getColumn: the column of `group` for `key`, created with the project's next cell index when absent. */
  method GetColumn(project: Project, model: ColumnModel, group: nat, key: Option<string>) returns (col: nat)
    requires model.Valid() && group < |model.groups|
    modifies project, model
    ensures var r := ColumnOf(ImportState(old(model.groups), old(model.columns), old(project.nextCellIndex), []), group, key);
            model.groups == r.0.groups && model.columns == r.0.columns &&
            project.nextCellIndex == r.0.nextCell && col == r.1
    ensures project.rows == old(project.rows)
  {
    var gr := model.groups[group];
    if key in gr.columns {
      col := gr.columns[key];
    } else {
      col := |model.columns|;
      model.columns := model.columns + [ImportColumn(project.nextCellIndex, 0)];
      project.nextCellIndex := project.nextCellIndex + 1;
      model.groups := model.groups[group := gr.(columns := gr.columns[key := col])];
    }
  }

  /**
   * addCell: writes `text` into the column `key` of `group` at the later of
   * the group's and the column's row cursor, and moves the column's cursor
   * past that row.  This placement is an assumption about
   * TreeImportUtilities.addCell, whose text is not part of this model.
   */
  method AddCell(project: Project, model: ColumnModel, group: nat, record: ImportRecord, key: Option<string>, text: string)
    requires model.Valid() && group < |model.groups|
    modifies project, model, record
    ensures RecordState(project, model, record) == CellAdded(old(RecordState(project, model, record)), group, key, text)
    ensures project.rows == old(project.rows)
  {
    if text == [] {
      return;
    }
    ghost var s0 := RecordState(project, model, record);
    var col := GetColumn(project, model, group, key);
    ghost var s1 := RecordState(project, model, record);
    assert ColumnOf(s0, group, key) == (s1, col);
    var c := model.columns[col];
    var r := Max(model.groups[group].nextRowIndex, c.nextRowIndex);
    record.rows := PutCell(record.rows, r, c.cellIndex, text);
    model.columns := model.columns[col := c.(nextRowIndex := r + 1)];
  }

  /** The largest of `start` and the row cursors in `cursors`, found in one pass over them. */
  method MaxCursor(start: nat, cursors: set<nat>) returns (m: nat)
    ensures m == CursorMax(start, cursors)
  {
    m := start;
    var rest := cursors;
    ghost var seen: set<nat> := {};
    while rest != {}
      invariant seen + rest == cursors && m >= start
      invariant forall x :: x in seen ==> x <= m
      invariant m == start || m in seen
      decreases |rest|
    {
      var x :| x in rest;
      if m < x {
        m := x;
      }
      rest := rest - {x};
      seen := seen + {x};
    }
    CursorMaxUnique(start, cursors, m);
  }

  /** The attribute loop of processSubRecord: each trimmed, non-blank attribute value becomes a cell of `group`. */
  method AddAttributeCells(project: Project, model: ColumnModel, group: nat, record: ImportRecord, attributes: seq<Attribute>)
    requires model.Valid() && group < |model.groups|
    modifies project, model, record
    ensures RecordState(project, model, record) == AttributeCellsAdded(old(RecordState(project, model, record)), group, attributes)
    ensures project.rows == old(project.rows)
  {
    ghost var s0 := RecordState(project, model, record);
    var i := 0;
    while i < |attributes|
      invariant i <= |attributes|
      invariant RecordState(project, model, record) == AttributeCellsAdded(s0, group, attributes[..i])
      invariant model.Valid() && group < |model.groups|
      invariant project.rows == old(project.rows)
    {
      var a := attributes[i];
      var text := Trim(a.value);
      if |text| > 0 {
        AddCell(project, model, group, record, Some(ComposeName(a.prefix, a.localName)), text);
      }
      assert attributes[..i + 1][..i] == attributes[..i];
      i := i + 1;
    }
    assert attributes[..i] == attributes;
  }

  // ---------------------------------------------------------------------
  // One record

  /**
   * processSubRecord: an ignorable token is left alone; a start node gets
   * the subgroup of `parent` named after it, whose row cursor is raised to
   * the parent's; its attributes and then its child tokens are written into
   * that subgroup, and finally the subgroup's row cursor is raised past those
   * of its columns and subgroups.
   */
  method ProcessSubRecord(t: seq<Token>, pos: nat, project: Project, model: ColumnModel, parent: nat, record: ImportRecord)
    returns (e: nat)
    requires pos < |t| && (t[pos].StartEntity? || t[pos].Ignorable?)
    requires model.Valid() && parent < |model.groups|
    modifies project, model, record
    ensures (e, RecordState(project, model, record)) == SubRecordFlattened(t, pos, old(RecordState(project, model, record)), parent)
    ensures project.rows == old(project.rows)
    decreases |t| - pos, 2
  {
    if t[pos].Ignorable? {
      return pos;
    }
    var g := GetColumnGroup(model, parent, ComposeName(t[pos].prefix, t[pos].localName));
    var G := model.groups[g];
    model.groups := model.groups[g := G.(nextRowIndex := Max(G.nextRowIndex, model.groups[parent].nextRowIndex))];
    e := FillGroup(t, pos, project, model, g, record);
  }

  /**
   * The body of processSubRecord once its group `g` is found: the
   * attributes, then the child tokens, then the raise of the group's row
   * cursor past those of its columns and subgroups.
   */
  method FillGroup(t: seq<Token>, pos: nat, project: Project, model: ColumnModel, g: nat, record: ImportRecord)
    returns (e: nat)
    requires pos < |t| && t[pos].StartEntity?
    requires model.Valid() && g < |model.groups|
    modifies project, model, record
    ensures (e, RecordState(project, model, record)) == GroupFilled(t, pos, old(RecordState(project, model, record)), g)
    ensures project.rows == old(project.rows)
    decreases |t| - pos, 1
  {
    AddAttributeCells(project, model, g, record, t[pos].attributes);
    StartOpens(t, pos);
    e := ProcessChildren(t, pos, project, model, g, record);
    var G := model.groups[g];
    var next := MaxCursor(G.nextRowIndex, ColumnCursors(model.groups, model.columns, g));
    next := MaxCursor(next, SubgroupCursors(model.groups, model.columns, g));
    model.groups := model.groups[g := G.(nextRowIndex := next)];
  }

  /**
   * The child loop of processSubRecord for the node started at `c`: a child
   * start node is a sub-record of `g`, a trimmed non-blank text value becomes
   * a cell of `g` under its field name, and the loop stops at the balancing
   * end node or at the end of the stream.
   */
  method ProcessChildren(t: seq<Token>, c: nat, project: Project, model: ColumnModel, g: nat, record: ImportRecord)
    returns (e: nat)
    requires c < |t| && OpenThrough(t, c, c + 1) && (c + 1 < |t| ==> Depth(t, c, c + 1) == 1)
    requires model.Valid() && g < |model.groups|
    modifies project, model, record
    ensures (e, RecordState(project, model, record)) == ChildrenFlattened(t, c, c, old(RecordState(project, model, record)), g)
    ensures model.Valid() && g < |model.groups|
    ensures project.rows == old(project.rows)
    decreases |t| - c, 0
  {
    ghost var s0 := RecordState(project, model, record);
    var p := c;
    while p + 1 < |t|
      invariant c <= p < |t| && OpenThrough(t, c, p + 1) && (p + 1 < |t| ==> Depth(t, c, p + 1) == 1)
      invariant model.Valid() && g < |model.groups|
      invariant ChildrenFlattened(t, c, p, RecordState(project, model, record), g) == ChildrenFlattened(t, c, c, s0, g)
      invariant project.rows == old(project.rows)
      decreases |t| - p
    {
      var q := p + 1;
      if t[q].StartEntity? {
        ChildStartStep(t, c, p, RecordState(project, model, record), g);
        p := ProcessSubRecord(t, q, project, model, g, record);
      } else if t[q].EndEntity? {
        return q;
      } else {
        if t[q].Value? {
          var text := Trim(t[q].text);
          if |text| > 0 {
            AddCell(project, model, g, record, t[q].fieldName, text);
          }
        }
        PlainStep(t, c, q);
        p := q;
      }
    }
    e := p;
  }

  /**
   * processRecord: the record started at `pos` is flattened into a fresh
   * record under the root group, and each of the record's rows holding at
   * least one cell is appended to the project.
   */
  method ProcessRecord(t: seq<Token>, pos: nat, project: Project, model: ColumnModel, root: nat)
    returns (e: nat)
    requires pos < |t| && t[pos].StartEntity?
    requires model.Valid() && root < |model.groups|
    modifies project, model
    ensures (e, ProjectState(project, model)) == RecordFlattened(t, pos, old(ProjectState(project, model)), root)
  {
    ghost var s0 := ProjectState(project, model);
    var record := new ImportRecord();
    assert RecordState(project, model, record) == s0.(rows := []);
    e := ProcessSubRecord(t, pos, project, model, root, record);
    ghost var s1 := RecordState(project, model, record);
    if |record.rows| > 0 {
      AppendRowsWithCells(project, record.rows);
    }
    assert ProjectState(project, model) == s1.(rows := s0.rows + NonEmptyRows(s1.rows));
  }

  /** The copy loop of processRecord: each row holding at least one cell is appended to the project, in order. */
  method AppendRowsWithCells(project: Project, rows: seq<Row>)
    modifies project
    ensures project.rows == old(project.rows) + NonEmptyRows(rows)
    ensures project.nextCellIndex == old(project.nextCellIndex)
  {
    var i := 0;
    while i < |rows|
      invariant i <= |rows|
      invariant project.rows == old(project.rows) + NonEmptyRows(rows[..i])
      invariant project.nextCellIndex == old(project.nextCellIndex)
    {
      var cellCount := CountCells(rows[i]);
      CellCountPositive(rows[i]);
      if cellCount > 0 {
        project.rows := project.rows + [rows[i]];
      }
      assert rows[..i + 1][..i] == rows[..i];
      i := i + 1;
    }
    assert rows[..i] == rows;
  }

  /** The cell-counting loop of processRecord: the number of cells the row holds. */
  method CountCells(row: Row) returns (n: nat)
    ensures n == CellCount(row)
  {
    n := 0;
    var c := 0;
    while c < |row|
      invariant c <= |row| && n == CellCount(row[..c])
    {
      assert row[..c + 1][..c] == row[..c];
      if row[c].Some? {
        n := n + 1;
      }
      c := c + 1;
    }
    assert row[..c] == row;
  }

  // ---------------------------------------------------------------------
  // The record search

  /**
   * findRecord: an ignorable token is left alone, a node not matching
   * segment `pathIndex` of the record path is skipped whole, a node matching
   * the last segment is processed as a record, and a node matching an
   * earlier segment has its children searched for the next segment.
   */
  method FindRecord(t: seq<Token>, pos: nat, project: Project, model: ColumnModel, root: nat,
                    recordPath: seq<string>, pathIndex: nat, limit: int)
    returns (e: nat)
    requires pos < |t| && (t[pos].StartEntity? || t[pos].Ignorable?)
    requires pathIndex < |recordPath|
    requires model.Valid() && root < |model.groups|
    modifies project, model
    ensures (e, ProjectState(project, model)) ==
            RecordsFound(t, pos, old(ProjectState(project, model)), recordPath, pathIndex, ProcessStep(t, root), LimitTest(limit))
    ensures model.Valid() && root < |model.groups|
    decreases |t| - pos, 1
  {
    if t[pos].Ignorable? {
      return pos;
    }
    ghost var s0 := ProjectState(project, model);
    var segment := recordPath[pathIndex];
    var localName := t[pos].localName;
    var fullName := ComposeName(t[pos].prefix, localName);
    if segment == localName || segment == fullName {
      if pathIndex < |recordPath| - 1 {
        StartOpens(t, pos);
        e := SearchChildren(t, pos, project, model, root, recordPath, pathIndex + 1, limit);
      } else {
        e := ProcessRecord(t, pos, project, model, root);
        SpanUnique(t, pos, e, SubtreeEnd(t, pos));
        assert ProcessStep(t, root)(pos, s0) == RecordFlattened(t, pos, s0, root).1;
      }
    } else {
      e := Skip(t, pos);
      SpanUnique(t, pos, e, SubtreeEnd(t, pos));
    }
  }

  /**
   * The child loop of findRecord in the node started at `c`: each child
   * start node is searched for segment `pathIndex`, until the node's end
   * node, the end of the stream, or, for a positive `limit`, until the
   * project holds `limit` rows.
   */
  method SearchChildren(t: seq<Token>, c: nat, project: Project, model: ColumnModel, root: nat,
                        recordPath: seq<string>, pathIndex: nat, limit: int)
    returns (e: nat)
    requires c < |t| && OpenThrough(t, c, c + 1) && (c + 1 < |t| ==> Depth(t, c, c + 1) == 1)
    requires pathIndex < |recordPath|
    requires model.Valid() && root < |model.groups|
    modifies project, model
    ensures (e, ProjectState(project, model)) ==
            ChildRecordsFound(t, c, c, old(ProjectState(project, model)), recordPath, pathIndex, ProcessStep(t, root), LimitTest(limit))
    ensures model.Valid() && root < |model.groups|
    decreases |t| - c, 0
  {
    ghost var s0 := ProjectState(project, model);
    var p := c;
    while p + 1 < |t| && (limit <= 0 || |project.rows| < limit)
      invariant c <= p < |t| && OpenThrough(t, c, p + 1)
      invariant p + 1 < |t| && !LimitReached(ProjectState(project, model), limit) ==> Depth(t, c, p + 1) == 1
      invariant model.Valid() && root < |model.groups|
      invariant ChildRecordsFound(t, c, p, ProjectState(project, model), recordPath, pathIndex, ProcessStep(t, root), LimitTest(limit))
             == ChildRecordsFound(t, c, c, s0, recordPath, pathIndex, ProcessStep(t, root), LimitTest(limit))
      decreases |t| - p
    {
      var q := p + 1;
      if t[q].StartEntity? {
        var e' := FindRecord(t, q, project, model, root, recordPath, pathIndex, limit);
        ChildAdvance(t, c, q, e');
        p := e';
      } else if t[q].EndEntity? {
        return q;
      } else {
        PlainStep(t, c, q);
        p := q;
      }
    }
    e := p;
  }

  /**
   * importTreeData: walks the stream and searches every start node met at
   * the top level for records, until the stream ends or, for a positive
   * `limit`, the project holds `limit` rows.  Position 0 is the reader's
   * current token before the first `next()`.  An empty record path makes the
   * search of the first start node fail, which ends the import there.  The
   * result is where the cursor stops.
   *
   * The project ends as the records of the stream, in stream order, each
   * processed as processRecord flattens it, with those met once the limit is
   * reached left out.
   */
  method ImportTreeData(t: seq<Token>, project: Project, model: ColumnModel, root: nat, recordPath: seq<string>, limit: int)
    returns (e: nat)
    requires |t| > 0
    requires model.Valid() && root < |model.groups|
    modifies project, model
    ensures (e, ProjectState(project, model)) ==
            TreeImported(t, 0, old(ProjectState(project, model)), recordPath, ProcessStep(t, root), LimitTest(limit))
    ensures ProjectState(project, model) ==
            RecordsApplied(RecordStarts(t, 1, |t|, recordPath), old(ProjectState(project, model)), ProcessStep(t, root), LimitTest(limit))
  {
    ghost var s0 := ProjectState(project, model);
    ImportedRecords(t, s0, recordPath, ProcessStep(t, root), LimitTest(limit));
    var p := 0;
    while p + 1 < |t| && (limit <= 0 || |project.rows| < limit)
      invariant p < |t|
      invariant model.Valid() && root < |model.groups|
      invariant TreeImported(t, p, ProjectState(project, model), recordPath, ProcessStep(t, root), LimitTest(limit))
             == TreeImported(t, 0, s0, recordPath, ProcessStep(t, root), LimitTest(limit))
      decreases |t| - p
    {
      var q := p + 1;
      if t[q].StartEntity? {
        if recordPath == [] {
          return q;
        }
        p := FindRecord(t, q, project, model, root, recordPath, 0, limit);
      } else {
        p := q;
      }
    }
    e := p;
  }
}
