# Google Refine import pipeline — a verified model

This project models in Dafny the decision-making core of Google Refine's data
import pipeline and proves properties of it. The model covers:

- **Tree record detection and flattening** (`TreeReader`, `XmlRecordDetection`, `TreeFlattening`, `TreeRecordSearch`, `TreeImport`).
  - An XML document is a sequence of tokens (start entity, end entity, value, ignorable) plus a cursor position. Every routine that consumes tokens returns the advanced cursor.
  - The model covers the search for a named element, the repeated-element candidate heuristic, and path-guided record search.
  - It also covers flattening a record into column groups with row cursors, where only rows that hold a cell reach the project.
  - `TreeFlattening` and `TreeRecordSearch` define what flattening a record and searching for records do, as functions of an import state (the column model, the next cell index and the rows), and prove what they guarantee.
  - `TreeImport` holds the routines themselves: classes for the column model, the record and the project, updated in place. Each routine is proved to leave exactly the state those functions describe.
- **The XML token reader** (`XmlImporter`):
  - the mapping from StAX event codes to token kinds;
  - the reader's cursor contract (`next`, `current`, `getFieldName`);
  - exception capture when a document is opened.
- **Ingestion bookkeeping** (`FileNaming`, `Retrieval`).
  - Collision-free file naming and relative paths.
  - The progress percentage, computed with Java's truncating division and narrowing cast.
  - Byte accounting for uploads and downloads.
  - Choosing how a retrieved file is handled from its name: explode as an archive, uncompress, or keep.
  - Archive extraction into file records.
- **Format choice** (`FormatSelection`):
  - the most frequent format among the files, ties going to the one seen first;
  - automatic file selection and selected-record lookup;
  - the guesser loop that refines a format;
  - the ranking of parser formats by the '/'-separated segments they share with the best format.
- **The CSV/TSV guesser** (`LineBasedFormatGuesser`): a sampling loop over lines and the comma/tab decision.
- **The import-job controller** (`ImportingController`): sub-command dispatch, lazy creation of a job's configuration, and the "new" / "ready" state guards of the four handlers.
- **The browser-side file selection panel** (`FileSelectionUI`): the file-extension histogram, the selection flags kept in step with the list of selected indices, and the select/unselect buttons.
- **The separator options panel** (`SeparatorUI`): escaping and unescaping separators, where each step replaces only the first occurrence, and the radio-button choice.

Dafny's `int` is unbounded. Java's `long` arithmetic is taken not to overflow. The narrowing cast from `long` to `int` in the progress percentage is modelled explicitly (`Retrieval.ToInt32`).

The code modelled comes from two lines of development of the repository:

- the main line: the controller, the XML importer and the browser controller;
- the new-importing-ui branch: the importing utilities, the CSV/TSV guesser and the separator panel.

The model follows each file as it appears in its own line.

## Model

| member | source | states |
|---|---|---|
| XmlRecordDetection.ComposeSplitRoundTrip | trunk/main/src/com/google/refine/importers/tree/XmlImportUtilities.java:126-128 | a qualified name is `prefix:local` when the prefix is non-empty, else the local name; splitting it at the first ':' gives back (prefix, local) when the prefix holds no ':' |
| XmlRecordDetection.Skip | trunk/main/src/com/google/refine/importers/tree/XmlImportUtilities.java:331-340 | skipping consumes the node at the cursor with its whole subtree, ending on its balancing end node or on the last token when the stream ends first |
| XmlRecordDetection.DetectTagPath | trunk/main/src/com/google/refine/importers/tree/XmlImportUtilities.java:92-124 | depth-first search for the first start node whose local or qualified name is the tag; on a match the path is the local names of the elements open at the match, outermost first; otherwise the enclosing node was consumed with no match in it |
| XmlRecordDetection.DetectPathFromTag | trunk/main/src/com/google/refine/importers/tree/XmlImportUtilities.java:56-77 | the path found is the open-element names from a start node down to the first matching start node, and it ends with the match's local name; that start node is top-level: no element is open before it, counting from the position after the initial token; None exactly when no start node matches |
| XmlRecordDetection.MostNumerous | trunk/main/src/com/google/refine/importers/tree/XmlImportUtilities.java:130-137 | the candidate that comes first after sorting is a most numerous one, the earliest of them in list order |
| XmlRecordDetection.Distinct | trunk/main/src/com/google/refine/importers/tree/XmlImportUtilities.java:197-200 | the keys of the child-count map are exactly the child names that occur |
| XmlRecordDetection.ImmediateCandidatesAreRepeatedChildren | trunk/main/src/com/google/refine/importers/tree/XmlImportUtilities.java:217-231 | only immediate children seen more than once become candidates, each with its occurrence count and the path extended by its name, and every such child does |
| XmlRecordDetection.RepeatingMembers | trunk/main/src/com/google/refine/importers/tree/XmlImportUtilities.java:219-230 | the candidate list built from the count map's keys holds exactly the keys with count above one |
| XmlRecordDetection.AcceptSound | trunk/main/src/com/google/refine/importers/tree/XmlImportUtilities.java:237-242 | an accepted candidate comes from its pool, is at least as numerous as every pool member, and occurs at least six times per pool member (integer division above 5) |
| XmlRecordDetection.PoolSizeRule | trunk/main/src/com/google/refine/importers/tree/XmlImportUtilities.java:233 | the pool of immediate candidates is ignored unless it has 1 to 4 members; the decision then rests on the descendant candidates alone |
| XmlRecordDetection.PairThreshold | trunk/main/src/com/google/refine/importers/tree/XmlImportUtilities.java:241 | integer division: in a pool of 2 whose first candidate is at least as numerous as the second, that first candidate is accepted exactly when it occurs 12 times or more (11 over 2 gives 5 and is rejected) |
| XmlRecordDetection.DecideSound | trunk/main/src/com/google/refine/importers/tree/XmlImportUtilities.java:217-258 | each node yields at most one candidate, taken from its repeating immediate children or from its descendants' candidates, and it occurs at least six times |
| XmlRecordDetection.ChildPathsExtend | trunk/main/src/com/google/refine/importers/tree/XmlImportUtilities.java:202-208 | a candidate a node yields lies strictly below that node's path |
| XmlRecordDetection.CollectRepeating | trunk/main/src/com/google/refine/importers/tree/XmlImportUtilities.java:217-231 | the loop over the child-count map builds exactly the pool of repeating immediate children |
| XmlRecordDetection.ChooseCandidate | trunk/main/src/com/google/refine/importers/tree/XmlImportUtilities.java:217-258 | once the node has been walked, the result is the pool or descendant candidate the heuristic picks (Decide) |
| XmlRecordDetection.DetectCandidate | trunk/main/src/com/google/refine/importers/tree/XmlImportUtilities.java:171-259 | walks the node to its end, counting its immediate children by name and collecting the candidates its children yield, each below the node's path; the candidate and end position equal those of the recursive definition CandidateOf (the heuristic applied to the node's child names and to each child's own candidate), and a candidate found occurs at least six times below the node's path |
| XmlRecordDetection.DetectRecordElement | trunk/main/src/com/google/refine/importers/tree/XmlImportUtilities.java:139-169 | the surviving candidates are TopCandidates, the candidate of each top-level node in stream order; each occurs at least six times and has a path of length two or more; None when none survives, otherwise the path of the most numerous one, the earliest among equals |
| TreeReader.OpenNamesConcat | trunk/main/src/com/google/refine/importers/tree/XmlImportUtilities.java:111-115 | the open-element stack over a run that never closes more than it opens is the earlier stack with the run's own names on top (the `path.add(0, localName)` composition) |
| TreeReader.ChildSpan | trunk/main/src/com/google/refine/importers/tree/XmlImportUtilities.java:331-340 | a child subtree consumed inside an open node leaves the parent at depth one, or takes it to the end of the stream |
| TreeFlattening.Trim | trunk/main/src/com/google/refine/importers/tree/XmlImportUtilities.java:409-410 | Java's trim: the result is a slice of the text with only characters up to U+0020 cut from the ends; it is empty exactly when the text is all such characters, and otherwise starts and ends with another character |
| TreeFlattening.TrimIdempotent | trunk/main/src/com/google/refine/importers/tree/XmlImportUtilities.java:435 | trimming twice is trimming once |
| TreeFlattening.PutCell | trunk/main/src/com/google/refine/importers/tree/XmlImportUtilities.java:437-443 | writing a cell sets exactly that cell of that row, pads with empty rows and cells, and leaves every other cell as it was |
| TreeFlattening.PutCellAt | trunk/main/src/com/google/refine/importers/tree/XmlImportUtilities.java:437-443 | seen cell by cell, a write changes the one cell written and no other |
| TreeFlattening.PutCellClean | trunk/main/src/com/google/refine/importers/tree/XmlImportUtilities.java:434-443 | writing trimmed non-empty text keeps every cell holding trimmed non-empty text |
| TreeFlattening.ColumnGroupOf | trunk/main/src/com/google/refine/importers/tree/XmlImportUtilities.java:400-403 | the parent's subgroup for a name is returned and is linked from the parent; it is created with no rows used only when absent; the columns, rows and cell index are untouched and the model only grows |
| TreeFlattening.ColumnOf | trunk/main/src/com/google/refine/importers/tree/XmlImportUtilities.java:411-417 | a group's column for a key is returned and is linked from the group; when absent it is created at a new index; the rows are untouched and the model only grows |
| TreeFlattening.ColumnOfConsistent | trunk/main/src/com/google/refine/importers/tree/XmlImportUtilities.java:411-417 | a new column takes the next cell index, which no row uses yet, so the write invariant holds afterwards |
| TreeFlattening.CellAddedIntoEmptySlot | trunk/main/src/com/google/refine/importers/tree/XmlImportUtilities.java:437-443 | the slot addCell writes, at the later of the group's and the column's cursor, is empty: no cell is ever overwritten |
| TreeFlattening.CellAddedKeeps | trunk/main/src/com/google/refine/importers/tree/XmlImportUtilities.java:437-443 | adding a cell keeps the write invariant and every cell already written, and non-empty text then sits in the key's column of the group |
| TreeFlattening.AttributeCellsKeep | trunk/main/src/com/google/refine/importers/tree/XmlImportUtilities.java:407-419 | the attribute loop keeps the write invariant and every cell already written |
| TreeFlattening.AttributeCellsWritten | trunk/main/src/com/google/refine/importers/tree/XmlImportUtilities.java:407-419 | every attribute whose trimmed value is non-blank has a cell with that text in the group's column named after the attribute |
| TreeFlattening.BlankAttributesAddNothing | trunk/main/src/com/google/refine/importers/tree/XmlImportUtilities.java:409-410 | attributes whose values are all blank change nothing |
| TreeFlattening.SubRecordKeeps | trunk/main/src/com/google/refine/importers/tree/XmlImportUtilities.java:388-459 | flattening a sub-record keeps the write invariant and every cell already written, and the column model only grows |
| TreeFlattening.SubRecordCells | trunk/main/src/com/google/refine/importers/tree/XmlImportUtilities.java:400-449 | the node's trimmed non-blank attribute values and the trimmed non-blank text values directly inside it are all written, each in its column of the node's subgroup of the parent |
| TreeFlattening.GroupFilledCells | trunk/main/src/com/google/refine/importers/tree/XmlImportUtilities.java:407-449 | filling a group writes a cell for each non-blank attribute value and direct text value of the node |
| TreeFlattening.GroupFilledCursor | trunk/main/src/com/google/refine/importers/tree/XmlImportUtilities.java:451-458 | after filling, the group's row cursor is at or past the cursor of each of its columns and subgroups |
| TreeFlattening.SubRecordCursor | trunk/main/src/com/google/refine/importers/tree/XmlImportUtilities.java:405-458 | the sub-record's group ends with its cursor at or past the parent's cursor at entry and at or past the cursor of each of its columns and subgroups |
| TreeFlattening.CellCountPositive | trunk/main/src/com/google/refine/importers/tree/XmlImportUtilities.java:363-373 | a row's cell count is positive exactly when the row holds a cell |
| TreeFlattening.NonEmptyRowsExact | trunk/main/src/com/google/refine/importers/tree/XmlImportUtilities.java:360-376 | the rows handed to the project are exactly the record's rows that hold a cell, never more than the record has, and they keep clean cell text |
| TreeFlattening.RecordWithTextAddsRow | trunk/main/src/com/google/refine/importers/tree/XmlImportUtilities.java:350-378 | a record whose start node has a non-blank attribute value or direct text value adds at least one row to the project |
| TreeFlattening.RecordFlattenedKeeps | trunk/main/src/com/google/refine/importers/tree/XmlImportUtilities.java:350-378 | a record keeps the column bookkeeping consistent, only grows the model, and the project's rows keep holding trimmed non-empty text |
| TreeRecordSearch.RecordStartsAreRecords | trunk/main/src/com/google/refine/importers/tree/XmlImportUtilities.java:294-329 | the record list holds exactly the start nodes whose open start nodes match the record path segment by segment (local or qualified name) and are as many as its segments, each once, in stream order |
| TreeRecordSearch.RecordsFoundApplied | trunk/main/src/com/google/refine/importers/tree/XmlImportUtilities.java:294-329 | findRecord at a top-level node processes exactly the records inside that node, in stream order, leaving out those met once the row limit is reached |
| TreeRecordSearch.ImportedRecords | trunk/main/src/com/google/refine/importers/tree/XmlImportUtilities.java:263-329 | importTreeData processes exactly the records of the stream, in stream order, each once, leaving out those met once the row limit is reached |
| TreeRecordSearch.EmptyPathImportsNothing | trunk/main/src/com/google/refine/importers/tree/XmlImportUtilities.java:272-280 | with an empty record path nothing is imported |
| TreeRecordSearch.ImportKeepsRows | trunk/main/src/com/google/refine/importers/tree/XmlImportUtilities.java:263-281 | the import keeps the column bookkeeping consistent, only appends rows to the project, and every cell holds trimmed non-empty text |
| TreeImport.GetColumnGroup | trunk/main/src/com/google/refine/importers/tree/XmlImportUtilities.java:400-403 | the column model ends exactly as ColumnGroupOf describes: the parent's subgroup for the name, created only when absent |
| TreeImport.GetColumn | trunk/main/src/com/google/refine/importers/tree/XmlImportUtilities.java:411-417 | the column model and the next cell index end exactly as ColumnOf describes; the project's rows are untouched |
| TreeImport.AddCell | trunk/main/src/com/google/refine/importers/tree/XmlImportUtilities.java:437-443 | the column model, the cell index and the record's rows end exactly as CellAdded describes: the text in the first row at or after both the group's and the column's cursor, which is an empty slot (CellAddedIntoEmptySlot), and the column's cursor past it |
| TreeImport.MaxCursor | trunk/main/src/com/google/refine/importers/tree/XmlImportUtilities.java:451-457 | the largest of the start value and the given row cursors |
| TreeImport.AddAttributeCells | trunk/main/src/com/google/refine/importers/tree/XmlImportUtilities.java:407-419 | the state ends as AttributeCellsAdded describes, so each non-blank trimmed attribute value is a cell of the group in the column named after it (AttributeCellsWritten) |
| TreeImport.ProcessSubRecord | trunk/main/src/com/google/refine/importers/tree/XmlImportUtilities.java:388-405 | an ignorable position changes nothing; otherwise the state ends as SubRecordFlattened describes, so the node's text is written into the parent's subgroup for its name (SubRecordCells), whose cursor ends past the parent's and its own columns' and subgroups' (SubRecordCursor) |
| TreeImport.FillGroup | trunk/main/src/com/google/refine/importers/tree/XmlImportUtilities.java:407-458 | attributes, then children, then the cursor raise: the state ends as GroupFilled describes, with the group's cursor at or past each of its columns' and subgroups' (GroupFilledCursor) |
| TreeImport.ProcessChildren | trunk/main/src/com/google/refine/importers/tree/XmlImportUtilities.java:421-449 | the child loop ends where the node's subtree ends and leaves the state ChildrenFlattened describes: every non-blank direct text value written in its column (ChildValuesWritten) |
| TreeImport.ProcessRecord | trunk/main/src/com/google/refine/importers/tree/XmlImportUtilities.java:350-378 | the project ends as RecordFlattened describes: its rows grow by exactly the record's rows that hold a cell, in record order (NonEmptyRowsExact), and the node is consumed whole |
| TreeImport.AppendRowsWithCells | trunk/main/src/com/google/refine/importers/tree/XmlImportUtilities.java:360-376 | the project's rows grow by exactly the given rows that hold a cell, in order; nothing else changes |
| TreeImport.CountCells | trunk/main/src/com/google/refine/importers/tree/XmlImportUtilities.java:363-371 | the number of cells the row holds |
| TreeImport.FindRecord | trunk/main/src/com/google/refine/importers/tree/XmlImportUtilities.java:294-329 | the project and cursor end as RecordsFound describes: a non-matching node is skipped whole with nothing changed, a node matching the last segment is processed as a record, and the records inside a matching node are processed in stream order (RecordsFoundApplied) |
| TreeImport.SearchChildren | trunk/main/src/com/google/refine/importers/tree/XmlImportUtilities.java:314-321 | the child loop ends as ChildRecordsFound describes: it stops at the node's end node, the end of the stream, or once the project holds `limit` rows |
| TreeImport.ImportTreeData | trunk/main/src/com/google/refine/importers/tree/XmlImportUtilities.java:263-281 | the project ends as the records of the stream processed in stream order, each as processRecord flattens it, leaving out those met once the project holds `limit` rows (ImportedRecords, RecordStartsAreRecords) |
| XmlImporter.MapToToken | main/src/com/google/refine/importers/XmlImporter.java:105-124 | START_ELEMENT maps to a start entity and END_ELEMENT to an end entity; CHARACTERS and SPACE map to a value; every other code, known or not, maps to ignorable |
| XmlImporter.ToToken | main/src/com/google/refine/importers/XmlImporter.java:105-147 | the token for an event has the event's kind and carries its prefix, local name and attributes; a value carries no field name |
| XmlImporter.ToTokens | main/src/com/google/refine/importers/XmlImporter.java:86-103 | the token stream has one token per event, in order |
| XmlImporter.XmlParser.constructor | main/src/com/google/refine/importers/XmlImporter.java:76-83 | a new reader stands on the document's first event |
| XmlImporter.XmlParser.Current | main/src/com/google/refine/importers/XmlImporter.java:127-129 | the current kind is the mapping applied to the present event |
| XmlImporter.XmlParser.Next | main/src/com/google/refine/importers/XmlImporter.java:86-103 | with a further event the cursor advances and the result equals what `Current` then reports; with none it fails with "End of XML stream" and stays put |
| XmlImporter.XmlParser.GetFieldName | main/src/com/google/refine/importers/XmlImporter.java:141-147 | the local name where the event has one (start and end entities), None instead of failing where it has none (values) |
| XmlImporter.ParseOneFile | main/src/com/google/refine/importers/XmlImporter.java:60-71 | a reader that cannot be created puts its exception in the list and nothing is thrown; otherwise a fresh reader stands on the first event and the list is untouched |
| FileNaming.NatToStringRoundTrip | branches/new-importing-ui/main/src/com/google/refine/importing/ImportingUtilities.java:276 | the decimal rendering of the collision counter reads back as the counter |
| FileNaming.NatToStringInjective | branches/new-importing-ui/main/src/com/google/refine/importing/ImportingUtilities.java:276 | different counters render differently |
| FileNaming.SplitAtFirstDot | branches/new-importing-ui/main/src/com/google/refine/importing/ImportingUtilities.java:271-273 | the name splits before its first '.': the prefix has no dot, the suffix is empty or starts with the dot, and together they are the name |
| FileNaming.AlternativesDistinct | branches/new-importing-ui/main/src/com/google/refine/importing/ImportingUtilities.java:276 | every alternative differs from the name, and different counters give different alternatives |
| FileNaming.SearchStep | branches/new-importing-ui/main/src/com/google/refine/importing/ImportingUtilities.java:275-277 | testing a taken candidate moves on to the next alternative and shrinks the set of names left to try |
| FileNaming.AllocateFile | branches/new-importing-ui/main/src/com/google/refine/importing/ImportingUtilities.java:268-282 | the result is never an existing name; it is the name itself when that is free, else the first free `prefix-k+suffix` for k = 2, 3, ... |
| FileNaming.SearchDone | branches/new-importing-ui/main/src/com/google/refine/importing/ImportingUtilities.java:275-281 | a search that stops at a free candidate has found the first free one |
| FileNaming.AlternativeKeepsEnding | branches/new-importing-ui/main/src/com/google/refine/importing/ImportingUtilities.java:271-276 | an alternative keeps every dotted ending of the name ("a.tar.gz" becomes "a-2.tar.gz") |
| FileNaming.AllocatedKeepsEnding | branches/new-importing-ui/main/src/com/google/refine/importing/ImportingUtilities.java:268-282 | whatever name is allocated keeps the dotted endings of the name asked for |
| FileNaming.GetRelativePath | branches/new-importing-ui/main/src/com/google/refine/importing/ImportingUtilities.java:263-266 | the location is the file's path with the directory's path cut off; when that rest starts with '/', the location is the rest without that one separator, and otherwise it is the rest itself |
| FileNaming.RelativePathOfChild | branches/new-importing-ui/main/src/com/google/refine/importing/ImportingUtilities.java:263-266 | the location of a file placed in a directory is its name again |
| FileNaming.TryOpenAsArchive | branches/new-importing-ui/main/src/com/google/refine/importing/ImportingUtilities.java:364-379 | ".tar.gz" and ".tgz" mean tar+gzip, then ".tar.bz2", ".tar" and ".zip", tested in that order; an unreadable file opens nothing |
| FileNaming.TryOpenAsCompressedFile | branches/new-importing-ui/main/src/com/google/refine/importing/ImportingUtilities.java:452-463 | ".gz" means gzip and ".bz2" bzip2, in that order |
| FileNaming.Classify | branches/new-importing-ui/main/src/com/google/refine/importing/ImportingUtilities.java:316-335 | a file is exploded exactly when it opens as an archive, and is uncompressed only when it does not |
| FileNaming.TarGzipIsArchive | branches/new-importing-ui/main/src/com/google/refine/importing/ImportingUtilities.java:316-333 | a readable ".tar.gz" file is exploded as an archive although it would also open as gzip |
| Retrieval.JavaDiv | branches/new-importing-ui/main/src/com/google/refine/importing/ImportingUtilities.java:486 | Java's truncating division for every sign: quotient times divisor plus `JavaRem` (the remainder, smaller than the divisor in magnitude and zero or of the dividend's sign) gives back the dividend, the quotient's magnitude is the magnitudes' quotient, and it agrees with Dafny's division for non-negative operands |
| Retrieval.ToInt32 | branches/new-importing-ui/main/src/com/google/refine/importing/ImportingUtilities.java:486 | the `(int)` cast yields a 32-bit value and keeps values already in range |
| Retrieval.ProgressPercentBounds | branches/new-importing-ui/main/src/com/google/refine/importing/ImportingUtilities.java:485-487 | with a positive expected total and no more retrieved than expected, the percentage is the whole part of retrieved*100/expected and lies in 0..100 |
| Retrieval.NothingExpected | branches/new-importing-ui/main/src/com/google/refine/importing/ImportingUtilities.java:486 | with nothing expected the percentage is -1 |
| Retrieval.SavingUpdate.constructor | branches/new-importing-ui/main/src/com/google/refine/importing/ImportingUtilities.java:284-289 | both totals start at zero |
| Retrieval.SavingUpdate.SavedMore | branches/new-importing-ui/main/src/com/google/refine/importing/ImportingUtilities.java:126-131 | reports the percentage of the current totals |
| Retrieval.UploadListener.constructor | branches/new-importing-ui/main/src/com/google/refine/importing/ImportingUtilities.java:137-139 | no content length set yet, no bytes read |
| Retrieval.UploadListener.Update | branches/new-importing-ui/main/src/com/google/refine/importing/ImportingUtilities.java:142-156 | the content length joins the expected total at most once, and only when it is not negative; from then on the retrieved total grows by the bytes read since the last call and the percentage is reported |
| Retrieval.Delivered | branches/new-importing-ui/main/src/com/google/refine/importing/ImportingUtilities.java:296 | a stream delivers its read results up to the first that is not positive |
| Retrieval.SaveStreamToFile | branches/new-importing-ui/main/src/com/google/refine/importing/ImportingUtilities.java:290-309 | the file exists afterwards; the length is the sum of the chunks delivered; with an update, the retrieved total grows by exactly that length and the expected total is untouched |
| Retrieval.DownloadAsWritten | branches/new-importing-ui/main/src/com/google/refine/importing/ImportingUtilities.java:185-215 | as written, the download saves the already-consumed form stream, so nothing is saved and both totals end where they started, whatever the URL delivers |
| Retrieval.Download | branches/new-importing-ui/main/src/com/google/refine/importing/ImportingUtilities.java:194-215 | saving the connection's stream: the expected total changes by exactly the bytes saved, whether or not a length was declared, and so does the retrieved total |
| Retrieval.FileEntries | branches/new-importing-ui/main/src/com/google/refine/importing/ImportingUtilities.java:392-394 | directory entries are passed over |
| Retrieval.ExtractStep | branches/new-importing-ui/main/src/com/google/refine/importing/ImportingUtilities.java:393-411 | extracting one more entry adds a record at a new location for a file entry, and nothing for a directory |
| Retrieval.ExplodeArchive | branches/new-importing-ui/main/src/com/google/refine/importing/ImportingUtilities.java:381-450 | one record per file entry read, in order, each with the archive's origin and name and at a new, distinct location; the archive counts as exploded even when reading breaks off early |
| Retrieval.UncompressFile | branches/new-importing-ui/main/src/com/google/refine/importing/ImportingUtilities.java:465-483 | the uncompressed copy goes to a fresh name allocated for the record's file name, which is not stripped of its ending; the record then locates the copy and has no declared encoding or MIME type |
| Retrieval.BaseName | branches/new-importing-ui/main/src/com/google/refine/importing/ImportingUtilities.java:365 | a file's name is the last component of its path |
| Retrieval.PostProcessRetrievedFileAsWritten | branches/new-importing-ui/main/src/com/google/refine/importing/ImportingUtilities.java:311-355 | as written, for a saved file in the directory: an archive is exploded and deleted; the records added are exactly those `ExplodeArchive` yields (one per file entry read, in order, each at a new, distinct location and naming the archive), and the directory holds the old names without the archive plus their locations; a compressed file is deleted and a copy at a new location (the record's file name when that is free) stays behind, and then the call fails with a null dereference and adds no record; any other file keeps its record and the directory is unchanged |
| Retrieval.GzipUploadFails | branches/new-importing-ui/main/src/com/google/refine/importing/ImportingUtilities.java:332-345 | a readable "data.csv.gz" goes down the failing path |
| Retrieval.PostProcessRetrievedFile | branches/new-importing-ui/main/src/com/google/refine/importing/ImportingUtilities.java:311-355 | the result says "archive" exactly when the file was exploded; an exploded archive is deleted, the records added are exactly those `ExplodeArchive` yields (one per file entry read, in order, each at a new, distinct location and naming the archive), and the directory holds the old names without the archive plus their locations; a compressed file is replaced by its uncompressed copy at a new location, named for the record's file name ("unknown" without one) when that is free and otherwise its first free alternative, and the one record added is the old one pointing there, with no declared encoding or MIME type; any other file keeps its record and the directory is unchanged |
| FormatSelection.Formats | branches/new-importing-ui/main/src/com/google/refine/importing/ImportingUtilities.java:508-509 | one format entry per file record, in order |
| FormatSelection.FirstAppearancesOrder | branches/new-importing-ui/main/src/com/google/refine/importing/ImportingUtilities.java:510-516 | the format list holds exactly the formats that occur, once each, in order of first occurrence |
| FormatSelection.TallyFormats | branches/new-importing-ui/main/src/com/google/refine/importing/ImportingUtilities.java:507-518 | the count map and the format list agree with the formats: each count is the format's number of occurrences, and the list is in order of first appearance |
| FormatSelection.PickMostFrequent | branches/new-importing-ui/main/src/com/google/refine/importing/ImportingUtilities.java:519-526 | the format a stable sort by descending count puts first: a most frequent one, the earliest of them; None when there is none |
| FormatSelection.MostFrequentIsMaximal | branches/new-importing-ui/main/src/com/google/refine/importing/ImportingUtilities.java:519-526 | the chosen format occurs, and no string is more frequent |
| FormatSelection.MostFrequentFirstUnique | branches/new-importing-ui/main/src/com/google/refine/importing/ImportingUtilities.java:519-526 | the choice is determined by the formats |
| FormatSelection.MatchingIndices | branches/new-importing-ui/main/src/com/google/refine/importing/ImportingUtilities.java:534-540 | the indices whose format equals the best format, exactly, in ascending order |
| FormatSelection.AutoSelectFiles | branches/new-importing-ui/main/src/com/google/refine/importing/ImportingUtilities.java:501-543 | the best format is the most frequent, ties to the first seen; without archives every index 0..n-1 is selected in order, otherwise exactly the files of the best format |
| FormatSelection.Selected | branches/new-importing-ui/main/src/com/google/refine/importing/ImportingUtilities.java:681-686 | only items at in-range positions of the selection are taken |
| FormatSelection.SelectedAppend | branches/new-importing-ui/main/src/com/google/refine/importing/ImportingUtilities.java:681-686 | selection order is kept: selecting by two lists joined is selecting by each in turn |
| FormatSelection.SelectedInRange | branches/new-importing-ui/main/src/com/google/refine/importing/ImportingUtilities.java:681-686 | with every index in range, the result is the selected items, whole and in selection order |
| FormatSelection.GetSelectedFileRecords | branches/new-importing-ui/main/src/com/google/refine/importing/ImportingUtilities.java:672-691 | the selected records in selection order, out-of-range indices dropped; nothing when the file list or the selection is missing |
| FormatSelection.GetCommonFormatForSelectedFiles | branches/new-importing-ui/main/src/com/google/refine/importing/ImportingUtilities.java:545-576 | the most frequent format (ties to the first seen) among the selected files, out-of-range indices ignored |
| FormatSelection.GetEncoding | branches/new-importing-ui/main/src/com/google/refine/importing/ImportingUtilities.java:493-499 | the detected encoding, else the declared one |
| FormatSelection.FirstGuess | branches/new-importing-ui/main/src/com/google/refine/importing/ImportingUtilities.java:602-607 | the first guesser that answers decides, even when it answers with the current format; None when none answers |
| FormatSelection.AskGuessers | branches/new-importing-ui/main/src/com/google/refine/importing/ImportingUtilities.java:598-608 | the loop over the registered guessers returns the first guess; with no guessers registered, no guess |
| FormatSelection.RefineStep | branches/new-importing-ui/main/src/com/google/refine/importing/ImportingUtilities.java:610-611 | while the refinement has not settled, the next format is the guess for the current one |
| FormatSelection.GuessBetterFormat | branches/new-importing-ui/main/src/com/google/refine/importing/ImportingUtilities.java:588-619 | no format, no files or a first file without location returns the input; otherwise the first guess is adopted until there is none or it equals the current format, and the result has settled unless the fuel ran out |
| FormatSelection.SplitAllJoin | branches/new-importing-ui/main/src/com/google/refine/importing/ImportingUtilities.java:629 | splitting at '/' loses nothing: joining the fields gives the string back |
| FormatSelection.DropTrailingEmpty | branches/new-importing-ui/main/src/com/google/refine/importing/ImportingUtilities.java:629 | the trailing empty fields, and only those, are removed |
| FormatSelection.Segments | branches/new-importing-ui/main/src/com/google/refine/importing/ImportingUtilities.java:629 | Java's `split("/")`: the whole string when it has no '/', otherwise the leading fields up to the last non-empty one |
| FormatSelection.CommonSegments | branches/new-importing-ui/main/src/com/google/refine/importing/ImportingUtilities.java:653-663 | the length of the longest common leading run of segments |
| FormatSelection.LexLessTotal | branches/new-importing-ui/main/src/com/google/refine/importing/ImportingUtilities.java:650 | `compareTo` orders any two different strings one way |
| FormatSelection.LexLessTransitive | branches/new-importing-ui/main/src/com/google/refine/importing/ImportingUtilities.java:650 | `compareTo` order is transitive |
| FormatSelection.RanksBeforeTotal | branches/new-importing-ui/main/src/com/google/refine/importing/ImportingUtilities.java:633-665 | of two different formats exactly one ranks first |
| FormatSelection.RanksBeforeIrreflexive | branches/new-importing-ui/main/src/com/google/refine/importing/ImportingUtilities.java:633-665 | no format ranks before itself |
| FormatSelection.RanksBeforeTransitive | branches/new-importing-ui/main/src/com/google/refine/importing/ImportingUtilities.java:633-665 | the ranking comparator is transitive, so the sort is well defined |
| FormatSelection.RankedPairwise | branches/new-importing-ui/main/src/com/google/refine/importing/ImportingUtilities.java:633-665 | in a ranked list every format ranks before every later one |
| FormatSelection.RankedBestFirst | branches/new-importing-ui/main/src/com/google/refine/importing/ImportingUtilities.java:639-642 | the best format, when listed, comes first |
| FormatSelection.Insert | branches/new-importing-ui/main/src/com/google/refine/importing/ImportingUtilities.java:633-665 | inserting into a ranked list keeps it ranked and adds exactly the one format |
| FormatSelection.SortFormats | branches/new-importing-ui/main/src/com/google/refine/importing/ImportingUtilities.java:633-665 | the sorted list is ranked and is a permutation of the input |
| FormatSelection.RankFormats | branches/new-importing-ui/main/src/com/google/refine/importing/ImportingUtilities.java:621-670 | a permutation of the formats with both a UI class and a parser, in ranked order; it fails with a null dereference exactly when a best format is given that is not itself eligible and two or more formats are compared |
| LineBasedFormatGuesser.Decide | branches/new-importing-ui/main/src/com/google/refine/importers/LineBasedFormatGuesser.java:35-48 | csv exactly when commas exceed 10 and tabs; tsv exactly when tabs exceed 10 and commas; otherwise no verdict, equal counts included |
| LineBasedFormatGuesser.SampledUnique | branches/new-importing-ui/main/src/com/google/refine/importers/LineBasedFormatGuesser.java:29 | only one number of lines qualifies as the sample |
| LineBasedFormatGuesser.SampleOvershoot | branches/new-importing-ui/main/src/com/google/refine/importers/LineBasedFormatGuesser.java:29-33 | a line is read only while fewer than 65536 characters have been, so the sample overshoots by at most its last line |
| LineBasedFormatGuesser.Guess | branches/new-importing-ui/main/src/com/google/refine/importers/LineBasedFormatGuesser.java:17-49 | counts commas and tabs over exactly the sampled lines and decides on them; the seed format plays no part; a file that cannot be opened, or a read failure, gives no guess rather than an error |
| ImportingController.ImportingJob.constructor | main/src/com/google/refine/importing/DefaultImportingController.java:173 | a new job has no configuration yet |
| ImportingController.GetConfig | main/src/com/google/refine/importing/DefaultImportingController.java:172-179 | creates a configuration in state "new" without data only when there is none; an existing one is returned unchanged |
| ImportingController.LoadDataAndPrepareJob | branches/new-importing-ui/main/src/com/google/refine/importing/ImportingUtilities.java:47-96 | an upload failure leaves state "error" with its message; any other exception escaping the retrieval fails the call with that exception and leaves the job "loading-raw-data" with the records made so far, nothing else changed and nothing selected or ranked; otherwise the files are selected as AutoSelectFiles does, the format is refined, the eligible formats are ranked and the job is "ready" with data; the call fails exactly when ranking fails for the refined format (it is not eligible and two or more formats are eligible), and then the job stays "loading-raw-data" |
| ImportingController.UpdateJobWithNewFileSelection | branches/new-importing-ui/main/src/com/google/refine/importing/ImportingUtilities.java:98-107 | the selection is replaced and the formats are ranked again for the refined most frequent format among the selected files; the call fails exactly when ranking fails for that format, leaving no ranked formats; nothing else in the configuration changes |
| ImportingController.DoLoadRawData | main/src/com/google/refine/importing/DefaultImportingController.java:64-86 | an unknown job gets "No such import job"; a job not in state "new" is refused and left as it was; otherwise it ends "loading-raw-data", "ready" or "error"; the answer is empty exactly when the job is "ready", an upload failure is thrown, any other retrieval exception is thrown as it is with the job left "loading-raw-data" and nothing selected or ranked, and retrieved data gets the empty answer exactly when ranking does not fail and a null dereference otherwise |
| ImportingController.DoUpdateFileSelection | main/src/com/google/refine/importing/DefaultImportingController.java:88-114 | an unknown job gets "No such import job"; a job that is not "ready" is refused and left as it was; otherwise it takes the new selection and keeps its state, and it answers with its data exactly when ranking does not fail, with a null dereference otherwise |
| ImportingController.DoUpdateFormatAndOptions | main/src/com/google/refine/importing/DefaultImportingController.java:116-145 | an unknown job gets "No such import job"; a job that is not "ready" gets "Job not ready"; otherwise "ok"; the configuration does not change |
| ImportingController.DoInitializeParserUI | main/src/com/google/refine/importing/DefaultImportingController.java:147-170 | no state check; an unknown job gets "No such import job"; the parser options when the format is registered with a parser, else an error |
| ImportingController.DoPost | main/src/com/google/refine/importing/DefaultImportingController.java:40-62 | only the four named sub-commands are dispatched, anything else gets "No such sub command" and changes nothing; no request takes a job back to state "new", and only known states are ever written |
| FileSelectionUI.LastIndexOf | main/webapp/modules/core/scripts/index/default-importing-controller/controller.js:287-288 | the position of the last occurrence of the character, or -1 |
| FileSelectionUI.ExtensionShape | main/webapp/modules/core/scripts/index/default-importing-controller/controller.js:287-290 | a file has an extension exactly when its last '.' comes after its last '/' plus one; the extension starts with that dot, ends the name, and holds no '/' and no other dot |
| FileSelectionUI.Extensions | main/webapp/modules/core/scripts/index/default-importing-controller/controller.js:283-290 | one extension entry per file, in order |
| FileSelectionUI.HistogramDistinct | main/webapp/modules/core/scripts/index/default-importing-controller/controller.js:290-296 | each extension is listed once, with a positive count |
| FileSelectionUI.HistogramCovers | main/webapp/modules/core/scripts/index/default-importing-controller/controller.js:287-296 | an extension is listed exactly when some file has it |
| FileSelectionUI.Tabulate | main/webapp/modules/core/scripts/index/default-importing-controller/controller.js:283-298 | one row per extension in order of first occurrence, with the number of files that have it |
| FileSelectionUI.InsertByCount | main/webapp/modules/core/scripts/index/default-importing-controller/controller.js:303-305 | inserting a row keeps the list ordered by descending count |
| FileSelectionUI.InsertByCountAdds | main/webapp/modules/core/scripts/index/default-importing-controller/controller.js:303-305 | inserting adds exactly that row |
| FileSelectionUI.SortByCount | main/webapp/modules/core/scripts/index/default-importing-controller/controller.js:303-305 | sorted by descending count, and a permutation of the input |
| FileSelectionUI.FileSelectionPanel.constructor | main/webapp/modules/core/scripts/index/default-importing-controller/controller.js:281-282 | the panel starts from the files and the server's selection, with no flag set |
| FileSelectionUI.FileSelectionPanel.PrepareData | main/webapp/modules/core/scripts/index/default-importing-controller/controller.js:277-307 | a file is flagged exactly when the selection lists it; the extension table is a permutation of the histogram, ordered by descending count |
| FileSelectionUI.FileSelectionPanel.UpdateFileSelectionSummary | main/webapp/modules/core/scripts/index/default-importing-controller/controller.js:485-495 | the selection becomes the flagged positions, in ascending order |
| FileSelectionUI.FileSelectionPanel.SelectExtension | main/webapp/modules/core/scripts/index/default-importing-controller/controller.js:382-395 | flags every file whose name ends with the extension, clears none, and rebuilds the selection |
| FileSelectionUI.FileSelectionPanel.UnselectExtension | main/webapp/modules/core/scripts/index/default-importing-controller/controller.js:400-413 | clears the flag of every file whose name ends with the extension, sets none, and rebuilds the selection |
| FileSelectionUI.FileSelectionPanel.SetAll | main/webapp/modules/core/scripts/index/default-importing-controller/controller.js:356-369 | select-all flags every file and the selection becomes 0..n-1; unselect-all clears every flag and the selection becomes empty |
| FileSelectionUI.AscendingUnique | main/webapp/modules/core/scripts/index/default-importing-controller/controller.js:486-493 | only one ascending list names a given set of positions |
| FileSelectionUI.AllPositions | main/webapp/modules/core/scripts/index/default-importing-controller/controller.js:356-362 | with every flag set, the selection summary is 0, 1, ..., n-1 |
| FileSelectionUI.SelectionRoundTrip | main/webapp/modules/core/scripts/index/default-importing-controller/controller.js:299-301 | flags set from an ascending in-range selection and summarised again give back that selection |
| SeparatorUI.FindFirst | branches/new-importing-ui/main/webapp/modules/core/scripts/index/parser-interfaces/separator-based-parser-ui.js:49-59 | the position of the first occurrence of the pattern, or -1 when it does not occur |
| SeparatorUI.ReplaceFirst | branches/new-importing-ui/main/webapp/modules/core/scripts/index/parser-interfaces/separator-based-parser-ui.js:49-59 | string `replace` with a string pattern: only the first occurrence is replaced, the rest is kept; with no occurrence the string is unchanged |
| SeparatorUI.EncodePlain | branches/new-importing-ui/main/webapp/modules/core/scripts/index/parser-interfaces/separator-based-parser-ui.js:49-53 | a separator without backslash, newline or tab is shown as it is |
| SeparatorUI.DecodePlain | branches/new-importing-ui/main/webapp/modules/core/scripts/index/parser-interfaces/separator-based-parser-ui.js:55-59 | a text without backslash is read back as it is |
| SeparatorUI.SingleCharacterRoundTrip | branches/new-importing-ui/main/webapp/modules/core/scripts/index/parser-interfaces/separator-based-parser-ui.js:49-59 | every one-character separator survives being shown and read back |
| SeparatorUI.BackslashNDoesNotRoundTrip | branches/new-importing-ui/main/webapp/modules/core/scripts/index/parser-interfaces/separator-based-parser-ui.js:49-59 | a backslash followed by 'n' is shown as two backslashes and 'n', and is read back as a backslash and a newline |
| SeparatorUI.RowSeparatorRadio | branches/new-importing-ui/main/webapp/modules/core/scripts/index/parser-interfaces/separator-based-parser-ui.js:66 | "new-line" exactly when the line separator is a newline, else "custom" |
| SeparatorUI.ColumnSeparatorRadio | branches/new-importing-ui/main/webapp/modules/core/scripts/index/parser-interfaces/separator-based-parser-ui.js:72-73 | "comma" exactly for ",", "tab" exactly for a tab, "custom" otherwise |

## Left out

- Disk, network and multipart I/O. The file system is a set of existing names, and a stream is the sequence of its read results. StAX parsing, tar/zip/gzip/bzip2 decoding and servlet response writing are foreign libraries. What they deliver is a parameter: the events of a document, the entries of an archive, whether a reader accepts a file.
- Several helpers are not part of this model and become parameters:
  - `TextFormatGuesser.countSubstrings` (a counter function);
  - `ImportingManager.getFormat` and the guesser and format registries (maps);
  - `JSONUtilities`.
- `TreeImportUtilities` is not part of this model either. Its `addCell`, `getColumnGroup` and `getColumn` are given concrete bodies whose policy is assumed, not taken from their code: a group or column is created on first use, and a cell is written at the later of the group's and the column's row cursor, after which the column's cursor moves past that row. TreeImport.AddCell, TreeFlattening.CellAdded and every proof about the flattening rest on this assumed policy. Its candidate sort is modelled only by what it puts first: a most numerous candidate, the earliest of them (`XmlRecordDetection.MostNumerous`).
- Java `HashMap` iteration order is unspecified. The child-count map and the format registry are visited in first-seen or arbitrary order. The stable sort in `autoSelectFiles` is modelled by its first element only.
- XmlRecordDetection.DetectTagPath requires the cursor to be on a start node, as every caller guarantees. The pre-step that skips an ignorable current event (XmlImportUtilities.java:94-96) is not modelled.
- XmlRecordDetection.DetectCandidate does not model the text-node and child-element counters (XmlImportUtilities.java:176-193). They are never read.
- The column model stores groups and columns in one object, indexed by position. Java's shared references to the same group or column are the same index.
- TreeImport.MaxCursor takes the set of the row cursors of a group's columns (or subgroups) rather than walking the objects: the largest value does not depend on the order of the walk or on repeated values.
- XmlImporter.XmlParser.Next, TreeImport.ImportTreeData and TreeImport.ProcessRecord do not model a parse error in the middle of a document. The token sequence is the events the reader delivers. A stream that ends inside a record is imported with that record's rows so far. In the source, an exception from `next()` abandons the record being built, because processRecord never reaches its copy loop, and it ends the import.
- Retrieval.FileRecord and FormatSelection.FileInfo are two views of the same JSON file record. Neither holds every field the source writes (see the next line). The model does not pass a record from retrieval to format selection. So `Retrieval.UncompressFile` and `Retrieval.MemberRecord` clear `declaredEncoding` as the source does, but the model does not show `FormatSelection.GetEncoding` reading the cleared field.
- Retrieval.PostProcessRetrievedFile and Retrieval.ExplodeArchive (and Retrieval.PostProcessRetrievedFileAsWritten) do not model the `format` and `size` fields of a file record. The source writes `format` through `postProcessSingleRetrievedFile` (ImportingUtilities.java:351, 357-362, 408, 438), from `ImportingManager.getFormat`, which is not part of this model. It writes `size` from the byte count `saveStreamToFile` returns (lines 210, 407, 437), which is disk I/O. So "keeps its record" in those rows means every modelled field; the source also sets `format` on that record.
- XmlImporter.ParseOneFile requires a document with at least one event; a well-formed StAX stream always starts with START_DOCUMENT. Only the opening of the reader is modelled; the tree import it hands the reader to is `TreeImport.ImportTreeData`. The other accessors (`getPrefix`, `getFieldValue`, the attribute getters) are folded into the token's data.
- FormatSelection.GuessBetterFormat takes a fuel bound. The Java loop can run forever when guessers cycle between formats. The model states what happens within the bound and that the result has settled whenever the bound was not reached.
- FormatSelection.LexLess is `compareTo` over Dafny characters, not over UTF-16 code units.
- FormatSelection.RankFormats returns an error value in place of the `NullPointerException` that comparing segments throws when the best format is not itself eligible.
- ImportingController.LoadDataAndPrepareJob and the handlers keep the configuration as a datatype value. Only the fields the controller and loader read or write are modelled. The progress object is modelled as a flag.
- ImportingController.LoadDataAndPrepareJob and ImportingController.DoLoadRawData take the outcome of the retrieval as a given value (`ImportingController.Retrieval`): which exception escapes, and the records made before it, are not derived from the Retrieval module's model of the steps that raise it (`new URL`, `openConnection`, `saveStreamToFile`, the null dereference of `Retrieval.PostProcessRetrievedFileAsWritten`).
- ImportingController.DoUpdateFormatAndOptions does not model `previewParse`: parsing, parser options and exceptions.
- Integer widths. `long` totals are unbounded integers. Only the `(int)` cast of the progress percentage is modelled (`Retrieval.ToInt32`).
- Retrieval.ExplodeArchive models an archive read failure only between entries, by how many entries were read. A failure inside an entry is not modelled.
- The clipboard and upload branches of the retrieval loop (ImportingUtilities.java:166-183, 229-253) are not modelled, beyond `SaveStreamToFile` without an update and `PostProcessRetrievedFile`. Neither are the upload, download, clipboard and archive counters.
- FileSelectionUI.FileSelectionPanel.PrepareData requires the server's selection indices to be in range; the browser code would fail on others. It computes the extensions first (`Extensions`) and then tabulates them (`Tabulate`), whereas the browser code does both in one loop. The sort's stability is not stated: the contract is descending order plus permutation.
- The regular-expression select and unselect buttons (controller.js:421-482) are not modelled: JavaScript regular expressions are out of scope.
- Rendering, jQuery, AJAX polling and `_commitFileSelection` in the browser code are not modelled. Neither are the DOM writes of the separator panel's `_initialize` other than the radio choice (the ignore-lines and other checkboxes).

## Findings

| source | as written | input that shows it | evidently intended | confidence | as-written member | corrected member |
|---|---|---|---|---|---|---|
| branches/new-importing-ui/main/src/com/google/refine/importing/ImportingUtilities.java:209 | a download saves `stream`, the form field that held the URL and has already been read to its end, instead of the connection's stream `stream2` | any "download" form field: the saved file is empty, and the expected total loses the declared length again | save `stream2`, so the file holds the downloaded bytes and both totals grow by them | not executed | Retrieval.DownloadAsWritten | Retrieval.Download |
| branches/new-importing-ui/main/src/com/google/refine/importing/ImportingUtilities.java:344 | after uncompressing, the `finally` block closes `archiveIS`, which is null on this path, instead of `uncompressedIS` | an upload named "data.csv.gz" (Retrieval.GzipUploadFails): a null dereference escapes after the compressed file was deleted, and no record is added | close `uncompressedIS`, so the uncompressed copy is recorded | not executed | Retrieval.PostProcessRetrievedFileAsWritten | Retrieval.PostProcessRetrievedFile |
