# Verified model of tablegram

tablegram reads and writes persisted ADO Recordsets in two formats, binary ADTG and XML updategrams,
over one in-memory Recordset of rows and change groups. Every part of it exists twice, once as a
writer and once as a reader, written by hand and held together only by agreement. This project models
both sides in Dafny and proves that they agree, or says exactly when they do not.

Check it with `dafny verify dfyconfig.toml`.

## Layout

| files | what they hold |
|---|---|
| `Prelude`, `Text` | results, sequences, little-endian numbers; trimming, splitting and joining of strings |
| `RecordsetModel`, `RowGraph` | rows, change groups, the validator, the default and pending views |
| `Masks`, `RowCodec` | presence masks of both paddings, the bytes of one row |
| `FlatStream`, `FlatMachine` | the flat row stream as functions, and as the buffer and cursor classes of the source |
| `WriterAccepts`, `ReadersFit`, `RowBytes` | which rows the writers take and with which bytes, what the flat readers can return, a few rows byte for byte |
| `ChapterTree`, `ChapterJoin`, `ChapterKept`, `ChapterViews` | schema trees of writer and reader, row pools, collecting, deduplicating and re-joining them, when that loses nothing |
| `ChapterCells` | what the join, the change keys and the deduplication mean, in the cells and columns of the rows |
| `ChapterBytes`, `ChapterPipeline`, `ChapterMachine` | the marked row groups, the whole shaped round trip, and its loops |
| `Updategram`, `UpdategramTree` | the element walk as the source runs it, and what a tree means by plain recursion |
| `UpdategramRows`, `UpdategramWriter`, `XmlNames` | one row as attributes, the written tree, generated names |
| `AttributeText`, `ScannedTags`, `CharacterReferences`, `Namespaces`, `OffsetMap` | the raw XML scanner: quoting, tags in any form XML allows, references, scopes, positions |
| `Decimal`, `NumericPayload`, `XmlDecimal`, `CanonicalDecimal` | decimal text and payloads, exponents, currency rounding, comparison |
| `Calendar`, `DateTimeText` | day numbers, FILETIME and timestamp text |
| `ScalarCodec` | the concrete value codec of the integer, boolean, currency, FILETIME and numeric columns |
| `RowMatching` | the unordered row comparison |

The loops and mutated buffers of the modelled writers and readers are methods here, or classes with
fields, and their contracts tie them to functions; the properties are lemmas about those functions.
`&mut Vec<u8>` and `&mut usize` are the fields `out` and `offset`. Errors are results without their
texts.

## Main results

* A shaped Recordset of any depth survives flattening into pools, deduplication, the byte codec and the
  relational re-join if and only if the change keys of the rows it shows are distinct:
  `ChapterPipeline.ChapteredRoundTrip`, on `ChapterKept.TreeKeptIffKeysApart`.
* Writer and reader number the schema tree alike (`ChapterTree.SchemasAgree`), and the row groups are read
  back exactly, whatever the tree: `ChapterPipeline.RowTreeRoundTrip`.
* No bytes can make the chapter reader build an invalid tree: `ChapterPipeline.ReadIsValid`.
* The flat stream is read back if and only if the marker hazard is absent: `FlatStream.FlatRoundTrip`.
* A parent's nested Recordset holds exactly the pool rows that agree with it in every pair of the relation
  (`ChapterCells.JoinedRows`, `ChapterCells.NestedRows`), and a change is written exactly when no earlier one
  agrees with it in every key column (`ChapterCells.WrittenChanges`).
* What an updategram means is a plain recursion over its elements, and the walk computes exactly that, errors
  included: `UpdategramTree.ParseRowsMeaning`, `UpdategramTree.RowsAreEntries`.
* No element tree can make the updategram walk build an inconsistent graph, and no input of either flat format
  a Recordset the validator refuses: `Updategram.WalkYieldsValidGraph`, `ReadersFit.FlatReadIsValid`,
  `ReadersFit.UpdategramReadIsValid`.
* The writers refuse a row for its cells alone: `WriterAccepts.FlatRowAccepted`,
  `WriterAccepts.ChapterRowAccepted`, `WriterAccepts.OnlyRowsStopTheWriter`.
* Once changes and values are given, validation leaves nothing else open: `RowGraph.GraphDetermined`.
* An updategram is read back if and only if every row's names survive:
  `UpdategramWriter.UpdategramRoundTrip`.

## Where the code falls short

Each of these is proved as an exact condition, with the failing side included, and shown at a concrete
input. Through the public writers:

* After a current row the reader takes a following 0x0d for granted and swallows it, so an insert whose
  first mask byte is 0x07, 0x0d or 0x0f is misread (`FlatStream.FlatRoundTrip`; two such rows in
  `ScalarCodec.HazardHappens`).
* The chapter writer emits one row per change group, so an insert group of several rows loses all but
  the first (`ChapterJoin.GroupsKeptIffSingle`; `ChapterJoin.GroupedInsertLosesRow`).
* The chapter writer drops rows whose change keys repeat (`ChapterKept.TreeKeptIffKeysApart`; two such rows in
  `ChapterKept.SecondRowIsDropped`).
* A chapter column may lack a relation for the validator and the writer; the reader demands one
  (`ChapterTree.SchemasAgree`, `ChapterPipeline.ReaderNeedsRelations`; `ChapterPipeline.UnrelatedIsUnreadable`).
* A column called `xmlns` loses its values in an updategram, and a column whose name contains U+1680, which
  XML allows in names and Unicode calls white space, loses its forced nulls (`UpdategramRows.RowRoundTrip`;
  `UpdategramRows.XmlnsColumnIsLost`, `UpdategramRows.SpacedNameLosesNull`).
* DECIMAL columns of unknown precision drop everything above 96 bits (`NumericPayload.DecimalRoundTrip`;
  `NumericPayload.TopBitIsDropped`).
* A number that exceeds 128 bits once it is scaled is written as zero (`Decimal.ParsedIsMeant`), even a five in
  a NUMERIC column of 38 places (`NumericPayload.FiveIsWrittenAsZero`).
* A long column of at most 255 bytes has a one-byte length that longer values overflow
  (`NumericPayload.VariableRoundTrip`; `NumericPayload.LengthByteOverflows`).
* The greedy row comparison can miss a pairing unless its match relation is rectangular, which the float
  tolerance is not (`RowMatching.CompleteIffRectangular`; `RowMatching.ToleranceFoolsGreedy`).

In single functions whose callers check first:

* The NUMERIC writer accepts descriptors its reader rejects (`NumericPayload.NumericRoundTrip`); the
  descriptor checks leave none of them (`NumericPayload.ValidatedNumericRoundTrip`).
* A fixed VARNUMERIC column of 20 to 255 bytes is padded until its reader refuses it
  (`NumericPayload.VarNumericRoundTrip`); the validator lets no VARNUMERIC be fixed
  (`NumericPayload.ValidatedVarNumericRoundTrip`).
* The currency writer's cast wraps beyond 64 bits (`ScalarCodec.CurrencyCell`); the validator's payload check
  rules that out (`ScalarCodec.CurrencyGuard`).
* The two decimal printers differ on negative zero (`Decimal.PrintersAgree`), which the parser never yields.

## Model

| member | source | states |
|---|---|---|
| Masks.MaskBytes | src/adtg_write.rs:1430-1445 | the byte loop yields the one mask whose field bits are the given ones and whose spare bits are all ones or all zeros |
| Masks.MaskIsMask | src/adtg_write.rs:1430-1445 | bit i of a written mask, counted from the high bit of byte i / 8, is field i's bit; every later bit is the padding |
| Masks.SameBitsSameMask | src/adtg.rs:2155-2159 | a mask is determined by its bits alone |
| Masks.MaskRoundTrip | src/adtg.rs:2112-2159 | both kinds of mask pass their padding check and are read back bit for bit |
| Masks.PaddingMeansSpareBits | src/adtg.rs:2112-2140 | the arithmetic padding check holds exactly when every spare bit has the padding value |
| Masks.AcceptedMaskIsWritten | src/adtg.rs:2112-2140 | the readers accept exactly the masks the writer can produce |
| RowCodec.SpreadMaskedOnly | src/adtg.rs:2002-2028 | spreading a mask that holds bits for maskable columns only restores the presence of all columns |
| RowCodec.ValueMasksInvert | src/adtg.rs:2046-2106 | the value mask and the null mask written for a row are accepted and split back, Null kept apart from omitted |
| RowCodec.MasksRead | src/adtg.rs:2046-2106 | whatever two masks stand in the bytes, they are taken exactly when no column has both bits and only columns that may be null have the null bit or, in an inserted row, neither bit |
| RowCodec.ReadValuesInverts | src/adtg.rs:2161-2185 | present values are read back in column order, absent ones become Null, and the reader stops where the row ends |
| RowCodec.CurrentRoundTrip | src/adtg_write.rs:1332-1357 | a current, original or deleted row is read back and nothing behind it is consumed |
| RowCodec.InsertRoundTrip | src/adtg_write.rs:1359-1388 | an inserted row is read back and nothing behind it is consumed |
| RowCodec.UpdateRoundTrip | src/adtg_write.rs:1390-1416 | a pending row is read back with values, nulls and omitted cells told apart |
| FlatStream.MarkerLookalike | src/adtg.rs:303-313 | an insert's first mask byte reads as a row marker exactly when nothing stands in its first four columns and the pattern of the next four is 0x07, 0x0d or 0x0f |
| FlatStream.StepReadsRow | src/adtg.rs:248-361 | one turn of the parse loop reads exactly one written row and leaves the reader at the next one, apart from the swallowed insert marker |
| FlatStream.LateInsertDiffers | src/adtg.rs:248-361 | reading an insert one byte late never yields the same row |
| FlatStream.FlatRoundTrip | src/adtg.rs:248-371 | any list of written rows is parsed back row for row, ending on 0x0f, unless an insert whose mask looks like a marker follows a current row; in columns whose stored values never read as null such a row is always lost |
| FlatStream.FlatRecordsetRoundTrip | src/adtg_write.rs:1283-1323 | what the parser builds from a written Recordset is the graph of its row changes in change order, one change per row, unless the marker hazard is present; where no stored value reads as null, if and only if it is absent |
| WriterAccepts.FlatRowAccepted | src/adtg_write.rs:1332-1416 | the flat writer refuses a row exactly when a cell can neither be encoded nor be null in its column, or an inserted row omits one |
| WriterAccepts.OnlyRowsStopTheFlatWriter | src/adtg_write.rs:1283-1323 | on a valid flat Recordset the writer fails exactly when it refuses one of its rows |
| WriterAccepts.FlatRowParts | src/adtg_write.rs:1283-1323 | the marker bytes 0x07, 0x0d, 0x0a and 0x0c and the parts of a row of each kind, in order |
| WriterAccepts.FlatEnd | src/adtg.rs:363-371 | the flat reader stops at 0x0f and takes nothing behind it |
| ReadersFit.FlatReadIsValid | src/adtg.rs:248-371 | whatever the bytes, a flat Recordset the reader accepts passes the validator's row, change and cell clauses and has nulls only where a column may be null |
| RowBytes.CurrentRowBytes | src/adtg_write.rs:1332-1357 | a concrete current row byte for byte: one mask bit for the nullable column, ones behind it, then the value |
| RowBytes.InsertRowBytes | src/adtg_write.rs:1359-1388 | a concrete inserted row byte for byte: the mask of the values, the mask of the nulls, then the value |
| RowBytes.UpdateRowBytes | src/adtg_write.rs:1390-1416 | a concrete pending row byte for byte, with no bit for the omitted cell |
| FlatMachine.RowWriter.WriteValues | src/adtg_write.rs:1332-1416 | the value loop appends exactly the present values, and fails exactly when a value cannot be encoded or a cell may not be null |
| FlatMachine.RowWriter.WriteCurrentOrOriginalRow | src/adtg_write.rs:1332-1357 | the output buffer grows by the marker, the ones-padded null mask and the values, or the writer refuses the row |
| FlatMachine.RowWriter.WriteInsertRow | src/adtg_write.rs:1359-1388 | the output buffer grows by one insert row, or the writer refuses an omitted or forbidden null cell |
| FlatMachine.RowWriter.WriteUpdateValues | src/adtg_write.rs:1390-1416 | the output buffer grows by both zero-padded masks and the changed values |
| FlatMachine.RowWriter.WriteRows | src/adtg_write.rs:1283-1323 | the nested loops over groups and rows append the encoding of the Recordset's row changes in order, or fail exactly when that has none |
| FlatMachine.RowReader.TakePresence | src/adtg.rs:2002-2028 | the cursor moves past the presence mask and the presence of every column is returned |
| FlatMachine.RowReader.TakeValueMasks | src/adtg.rs:2030-2106 | the cursor moves past both masks exactly when they are padded with zeros and consistent |
| FlatMachine.RowReader.TakeValues | src/adtg.rs:2161-2185 | the cursor moves past the present values, which are returned in column order |
| FlatMachine.RowReader.TakeUpdateValues | src/adtg.rs:2046-2072 | the pending row is built by overwriting omitted cells, with the cursor behind it |
| FlatMachine.RowReader.TakeRow | src/adtg.rs:248-361 | the loop body consumes one row and reports its kind and values |
| FlatMachine.RowReader.ParseRows | src/adtg.rs:248-371 | the parse loop with its cursor and its growing row and change lists computes the specified parse, and every graph it returns passes the validator |
| RecordsetModel.PushValid | src/adtg.rs:934-961 | pushing a change keeps every row and change reference consistent |
| RecordsetModel.GraphRoundTrip | src/adtg.rs:1979-2000 | a graph built by pushing changes always passes the validator, and reading its changes back gives exactly what was pushed |
| RecordsetModel.ShapeGivesImages | src/lib.rs:356-450 | where the validator's row, change and cell clauses hold, every row change is complete: cells fit the columns and only updated rows omit any |
| RowGraph.ChangeShows | src/compat.rs:54-170 | what each kind of change shows in either view, row by row and cell by cell: an update is one row with each pending cell over the original one |
| RowGraph.StatusIsShown | src/lib.rs:356-400 | in a validated graph a row's status is the status of every view row its change shows, and every change shows at least one |
| RowGraph.GraphDetermined | src/lib.rs:356-450 | once the changes and the rows' values are given, validation determines every row's ordinal, state, status and change index |
| RowGraph.ValidateGraph | src/lib.rs:356-450 | the validator's loops with their early exits accept exactly the consistent graphs |
| RowGraph.ValidateChange | src/lib.rs:402-450 | one change passes exactly when its rows are distinct, refer back to it, and have states fitting its kind |
| RowGraph.ValidatedIsPartition | src/lib.rs:356-450 | a validated graph's groups partition the rows; rows are default rows plus deleted rows plus updates, and pending rows are inserts plus updates plus deletes |
| RowGraph.BuildView | src/compat.rs:54-170 | both view loops compute the specified view |
| RowGraph.ViewsFollowImages | src/compat.rs:54-170 | on a validated graph neither view drops, repeats or invents a row |
| RowGraph.SplittingKeepsViews | src/compat.rs:54-170 | splitting groups into one change per row, as readers do, changes neither view |
| RowGraph.DefaultRowCount | src/adtg_write.rs:302-320 | the row count in the ADTG header is the length of the default view |
| ChapterTree.GroupIdsArePreorder | src/adtg_write.rs:243-300 | the writer numbers child schemas consecutively in preorder, so no two groups share an id |
| ChapterTree.SchemaAccepted | src/adtg_write.rs:243-300 | the writer numbers a tree exactly when every chapter column has child columns and the ids stay below 4294967295, and takes one id for each chapter column of the tree |
| ChapterCells.RelationChecked | src/adtg.rs:1074-1125 | a relation is accepted exactly when it has pairs, all between plain columns, and as many different ordinals on either side as pairs |
| ChapterTree.SchemasAgree | src/adtg.rs:503-581 | on every field tree the reader's two passes build the writer's schema, the same ids at the same places, and the reader refuses a tree the writer takes exactly when some relation is missing or wrong |
| ChapterTree.ParsedIdsArePreorder | src/adtg.rs:531-561 | the ids the reader assigns are the writer's, in preorder |
| ChapterTree.ParsedSchemaValid | src/adtg.rs:503-581 | every schema the reader builds has relations that name existing scalar columns on both sides and children in column order |
| ChapterMachine.BuildAdtgSchema | src/adtg_write.rs:243-300 | the loop over the fields with its shared id counter builds the specified schema |
| ChapterMachine.BuildParsedSchema | src/adtg.rs:503-581 | collecting the chapter columns and then looping over them builds the specified schema |
| ChapterMachine.CollectRowChanges | src/adtg_write.rs:1204-1228 | the loop with its set of seen keys keeps the first change of every key, in order; which changes share a key is `ChapterCells.WrittenChanges` |
| ChapterCells.KeyColumns | src/adtg_write.rs:1242-1259 | a column belongs to the change key exactly when it is plain and either marks a key or no plain column does |
| ChapterCells.WrittenChanges | src/adtg_write.rs:1204-1271 | of validated Recordsets a change is written if and only if no earlier one has the same kind and agrees with it, row by row, in every such column; its first row is what is written, in order |
| ChapterCells.CollectedChapters | src/adtg_write.rs:1181-1202 | of a column the nested Recordset of every row of every change is collected once, in order, the pending row of an update besides its original |
| ChapterMachine.CollectChildRecordsets | src/adtg_write.rs:1181-1202 | the loops collect every parent's nested Recordset of one column, in row order |
| ChapterMachine.GroupWriter.WriteMarker | src/adtg_write.rs:1040-1060 | the buffer grows by one byte for the root, by five for a child group |
| ChapterMachine.GroupWriter.WriteCurrentRow | src/adtg_write.rs:1062-1096 | the buffer grows by the marker, the ones-padded mask of the maskable columns and the plain values, or the row is refused |
| ChapterMachine.GroupWriter.WriteInsertRow | src/adtg_write.rs:1098-1116 | the buffer grows by the marker, both zero-padded masks and the plain values, or the row is refused |
| ChapterMachine.GroupWriter.WriteUpdateValues | src/adtg_write.rs:1118-1156 | the loop that blanks chapter cells and unchanged cells is followed by the masks and values of what is left |
| ChapterMachine.GroupWriter.WriteRow | src/adtg_write.rs:988-1030 | a row of any kind is emitted as its parts in order, a deleted one with a trailing marker and an update as its original and its changes |
| ChapterMachine.GroupWriter.WriteGroup | src/adtg_write.rs:961-986 | the buffer grows by the group's rows and then each child group, or the writer fails exactly when a row is refused |
| ChapterMachine.ValidTreeFits | src/adtg_write.rs:168-225 | on a tree the validator accepts no row or cell lookup of the writer fails, at any depth |
| ChapterMachine.WriteShaped | src/adtg_write.rs:137-155 | from validation over the schema and the groups to the terminator the writer produces the specified bytes or refuses |
| ChapterMachine.TakeMarker | src/adtg.rs:733-755 | the cursor passes a marker exactly when it is this group's and of this kind |
| ChapterMachine.TakeChapterRow | src/adtg.rs:662-731 | the cursor passes one row of this group and reports its kind and values, or stays where it is |
| ChapterMachine.ReadRowsOfGroup | src/adtg.rs:642-660 | the loop with its offset reads exactly the rows of its own group |
| ChapterMachine.ReadWholeTree | src/adtg.rs:596-640 | the recursion over the groups with its advancing offset reads the specified pools and accepts only when the last byte is used |
| ChapterMachine.FillChapters | src/adtg.rs:963-999 | overwriting the chapter cells one by one fills each with the rows joined to its parent |
| ChapterMachine.JoinRows | src/adtg.rs:1042-1072 | the loop pushes exactly the pool rows that match the parent, in pool order; which rows match is `ChapterCells.JoinedRows` |
| ChapterCells.JoinedRows | src/adtg.rs:1127-1152 | a pool row is joined to a parent if and only if for every pair of the relation the parent's and the row's effective cells are both neither null nor omitted and are equal; joined rows keep pool order |
| ChapterCells.NestedRows | src/adtg.rs:848-1072 | the nested Recordset built for a row holds exactly the linked pool rows, each with its own nested Recordsets; kind and plain cells stay, and a pending chapter cell stays omitted or holds the same Recordset |
| ChapterCells.StoredCells | src/adtg_write.rs:1118-1156 | what is left of a row once stored, cell by cell: a pending cell is written exactly when it is plain and changed |
| ChapterJoin.PoolKeptIffKeysDistinct | src/adtg_write.rs:1204-1271 | a pool survives deduplication whole exactly when its change keys are distinct |
| ChapterJoin.KeyIdentifies | src/adtg_write.rs:1230-1271 | with distinct keys, equal keys mean the same row |
| ChapterJoin.MatchingSame | src/adtg.rs:1127-1168 | two parents that share one child share all their children |
| ChapterJoin.RejoinChildren | src/adtg_write.rs:1181-1228 | collecting the children of many parents and dropping repeats loses none of one parent's children and keeps their order |
| ChapterJoin.GroupsKeptIffSingle | src/adtg_write.rs:1204-1241 | the chapter writer keeps every row of a validated Recordset if and only if no group holds several rows |
| ChapterJoin.GroupedInsertLosesRow | src/adtg_write.rs:1204-1241 | an insert group of two rows is written as its first row only |
| ChapterJoin.StoredMatching | src/adtg_write.rs:1118-1156 | reducing updates to their changed cells changes no row's effective key, so the same children match |
| ChapterJoin.RereadMatching | src/adtg.rs:1042-1072 | after collecting and rereading, every parent finds exactly its own children again |
| ChapterJoin.FlattenRejoin | src/adtg.rs:822-1072 | flattening a tree of any depth into pools, dropping repeats and joining again gives the tree of the stored pools |
| ChapterKept.CountsKeepApart | src/adtg_write.rs:1204-1228 | if no parent lost a child to deduplication, the rows that parents join have distinct change keys |
| ChapterKept.PruningKeepsRow | src/adtg.rs:1042-1072 | rows no parent joins can be dropped from all pools without changing the tree |
| ChapterKept.TreeKeptIffKeysApart | src/adtg_write.rs:1181-1271 | flattening a tree of any depth, dropping repeats and joining again gives the tree of the stored pools if and only if no two rows of one pool that the tree shows have the same change key |
| ChapterKept.SecondRowIsDropped | src/adtg_write.rs:1204-1228 | two concrete current rows with one key, of which the second is dropped |
| ChapterViews.StoredKeepsViews | src/adtg_write.rs:1118-1156 | reducing the updates of a tree to their changes keeps both views of the root and of every nested Recordset, at every depth |
| ChapterViews.RejoinKeepsViews | src/adtg.rs:822-1072 | the default and pending views of the root and of every nested Recordset are the same after the trip, at every depth |
| ChapterBytes.ReadMarkerInverts | src/adtg.rs:733-755 | a marker is recognised by its own group and row kind and by no other |
| ChapterBytes.ChapterRowRoundTrip | src/adtg.rs:662-731 | one row of any kind is read back in any group, with its update reduced to the changed cells |
| ChapterBytes.ChapterRowsRoundTrip | src/adtg.rs:642-660 | the rows of a group are read back and the reader stops at the first byte of another group or the terminator |
| ChapterPipeline.GroupBoundary | src/adtg_write.rs:961-1060 | seen from a sibling, a written child group starts with the marker of one of its own groups |
| ChapterPipeline.GroupRoundTrip | src/adtg.rs:614-640 | a group and all groups below it are read back as exactly their own pools, with no row leaking into a sibling, parent or child |
| ChapterPipeline.RowTreeRoundTrip | src/adtg.rs:596-612 | the whole tree written under the writer's schema and followed by 0x0f is read under the reader's schema to the last byte and returns exactly the written pools |
| ChapterPipeline.TrailingBytesRefused | src/adtg.rs:596-612 | with anything behind the terminator a written tree is refused |
| ChapterPipeline.FlatIsNotShaped | src/adtg.rs:398-426 | a Recordset without chapter columns is never read by the shaped reader |
| ChapterPipeline.ReadGroupShaped | src/adtg.rs:614-731 | whatever the bytes, a group that is read has rows that fit its columns and one pool per child schema |
| ChapterPipeline.ReadIsValid | src/adtg.rs:398-426 | whatever the bytes, a shaped Recordset the reader accepts passes the validator at every level |
| ChapterPipeline.ReaderNeedsRelations | src/adtg.rs:511-529 | the writer takes a chapter column without a relation, and the reader then accepts no bytes at all |
| ChapterPipeline.UnrelatedIsUnreadable | src/adtg.rs:511-529 | an empty Recordset with such a column that is written and cannot be read |
| ChapterPipeline.MaterializedValid | src/adtg.rs:822-1072 | whatever rows that fit the columns the pools hold, repeated keys included, the Recordset built from them passes the validator at every level |
| ChapterPipeline.ChapteredRoundTrip | src/adtg.rs:398-426 | writing a shaped Recordset and parsing it back always gives a tree; it is the tree of the stored pools, the very same one when its updates were reduced already, if and only if the rows the tree shows have distinct change keys pool by pool, and then all views at every depth are equal |
| ChapterPipeline.OnlyCellsStopTheWriter | src/adtg_write.rs:137-155 | on a tree built from row pools the shape validation refuses nothing, so only a cell it cannot encode can stop the writer |
| WriterAccepts.ChapterRowAccepted | src/adtg_write.rs:988-1156 | the chapter writer refuses a row exactly when a plain cell can neither be encoded nor be null in its column; of an update only the changed cells count |
| WriterAccepts.OnlyRowsStopTheWriter | src/adtg_write.rs:137-155 | on a tree built from row pools the writer fails exactly when it refuses a row of some group |
| WriterAccepts.Markers | src/adtg_write.rs:1032-1060 | every marker byte of the root group and of a child group, the child's followed by its id in four bytes, low byte first |
| RowBytes.ChapterRowBytes | src/adtg_write.rs:1062-1116 | concrete current and inserted rows of a chaptered group byte for byte, with a clear bit and no value for the chapter column |
| ScalarCodec.SignedRoundTrip | src/adtg_write.rs:2210-2240 | two's complement gives an integer back exactly when it fits its width |
| ScalarCodec.CurrencyCell | src/adtg_write.rs:1778-1787 | the count of ten-thousandths of any currency text comes back exactly when it fits 64 bits, beyond which the writer's cast wraps; the text itself comes back exactly when it is also in the form the reader prints |
| ScalarCodec.CurrencyGuard | src/lib.rs:862-912 | a currency text the validator lets through is parsed to its own count, and that count fits 64 bits |
| ScalarCodec.StorableRoundTrips | src/adtg.rs:2195-2266 | every storable integer, boolean, currency, FILETIME and numeric cell is read back as itself, whatever bytes follow |
| ScalarCodec.NothingStoredIsNull | src/adtg.rs:2195-2266 | none of these types ever decodes to Null or to an omitted cell |
| RowBytes.CellWidth | src/adtg_write.rs:1447-1568 | which type codes the codec takes and how many bytes a cell of each takes |
| RowBytes.IntegerRange | src/adtg_write.rs:1447-1568 | exactly which integers each integer column takes, by type code |
| RowBytes.BooleanBytes | src/adtg_write.rs:1447-1568 | a boolean is two bytes of ones or of zeros |
| RowBytes.CurrencyAccepted | src/adtg_write.rs:1778-1787 | a currency column refuses a number only beyond 127 bits |
| ScalarCodec.CurrencyGuardIs | src/lib.rs:862-912 | the validator lets a currency text through exactly when it is a plain decimal of at most four places whose ten-thousandths fit 64 bits; its digit count is implied |
| ScalarCodec.ScalarFlatRoundTrip | src/adtg.rs:248-371 | whole Recordsets of these column types are parsed back if and only if the marker hazard is absent |
| ScalarCodec.ScalarChapteredRoundTrip | src/adtg.rs:398-426 | whole shaped Recordsets of these column types are parsed back valid, as the tree of the stored pools if and only if the keys of the rows shown are distinct, and then with equal views at every depth |
| ScalarCodec.HazardHappens | src/adtg.rs:303-313 | two concrete rows the writer accepts, a current row of nulls and an insert, that the parser does not give back |
| Updategram.Walker.PushRow | src/xml.rs:1322-1365 | one row is appended with the given change index, or nothing is added when the element is malformed |
| Updategram.Walker.PushUpdateRows | src/xml.rs:836-924 | an update becomes an original and updated pair, a malformed one a current row, and nothing when it holds no row |
| Updategram.Walker.WalkChild | src/xml.rs:751-934 | the recursive walk over the shared row and change lists computes the specified walk |
| Updategram.Walker.WalkGroupChild | src/xml.rs:936-997 | inside an open group, rows join it and a nested wrapper closes it, is walked by itself and is followed by a fresh group |
| Updategram.OpenRowKeepsOrder | src/xml.rs:936-997 | a row added to an open group carries the index the group will have once it is flushed |
| Updategram.GroupChildrenKeepOrder | src/xml.rs:936-1010 | after any elements inside a wrapper, wrappers in wrappers included, pending rows carry the number of changes so far |
| Updategram.WalkYieldsValidGraph | src/xml.rs:725-1010 | whatever the element tree, a walk that succeeds yields a graph the validator accepts whose groups list rows 0 to n-1 in order |
| UpdategramTree.ParseRowsMeaning | src/xml.rs:725-1010 | the walk succeeds if and only if the tree is well formed and every row's attributes make values, and then its Recordset is, exactly, one change per run of accepted rows between wrapper boundaries, defined by plain recursion over the elements |
| UpdategramTree.RowsAreEntries | src/xml.rs:725-1010 | its rows are the accepted row elements of the whole tree, one for one, in document order, in the state of the innermost insert or delete wrapper around them, an update giving its original and its updated row or one merged row |
| UpdategramTree.MergedAttributes | src/xml.rs:1287-1313 | for each name, which row's value the single row of a malformed update has: the last updated row's, or else the first original row's |
| UpdategramTree.NestedDeleteDeletes | tests/xml_samples.rs:3124-3156 | a delete wrapper inside an insert wrapper yields one deleted row |
| ReadersFit.UpdategramReadIsValid | src/xml.rs:725-1010 | whatever the element tree, a flat Recordset the updategram reader accepts passes the validator's row, change and cell clauses and has nulls only where a column may be null |
| UpdategramRows.WriteRowLoop | src/xml_write.rs:585-657 | the loop over the cells emits the attributes of shown cells in column order and the forced names, or refuses the row |
| UpdategramRows.ParseRowLoop | src/xml.rs:1322-1365 | the loop over the columns takes each cell from its attribute, from rs:forcenull, or from its absence |
| UpdategramRows.Lookup | src/xml.rs:2186-2196 | a column's attribute is found by its name in any letter case exactly when its cell was shown and the name is not xmlns |
| UpdategramRows.OnlyOneSpace | src/xml_write.rs:908-946 | a valid attribute name contains white space exactly when it contains U+1680 |
| UpdategramRows.RowRoundTrip | src/xml.rs:1322-1365 | a written row reads back with values, nulls and omitted cells apart if and only if no shown column is named xmlns and no forced-null column's name contains U+1680 |
| UpdategramRows.XmlnsColumnIsLost | src/xml.rs:2186-2196 | a concrete column called xmlns whose value is written and read as null |
| UpdategramRows.SpacedNameLosesNull | src/xml_write.rs:633-635 | a concrete column whose name holds U+1680 and whose forced null is read as omitted |
| UpdategramRows.XmlValuesAreValues | src/xml_write.rs:613-624 | the trip changes a row's values exactly when a nullable variant column holds an empty value |
| UpdategramWriter.WriteDataLoop | src/xml_write.rs:484-547 | the loops over changes and rows, and the two rows of an update, emit exactly the specified element tree, or fail exactly when a row is refused |
| UpdategramWriter.RowTagRoundTrip | src/xml_write.rs:585-657 | a written row element is scanned back to its name and to exactly the attributes written |
| UpdategramWriter.WalkOfWritten | src/xml.rs:725-924 | walking a written tree succeeds exactly when every row reads back on its own, and then yields those rows in order, in the same insert, update and delete groups, with Current groups split per row |
| UpdategramWriter.UpdategramRoundTrip | src/xml.rs:725-1010 | writing and parsing an updategram gives back the same rows, states and groups if and only if every row's names survive |
| UpdategramWriter.UpdategramKeepsViews | src/compat.rs:54-170 | neither view of a Recordset changes through an updategram, empty variants counted as the nulls they become |
| XmlNames.NextFree | src/xml_write.rs:89-95 | the counter loop ends, at the first number whose name is free |
| XmlNames.GenerateNames | src/xml_write.rs:77-97 | the loop with its used set computes the specified names |
| XmlNames.GeneratedNamesAreDistinct | src/xml_write.rs:77-97 | whatever the columns are called, the generated names are valid and no two are alike in any letter case |
| XmlNames.KeptNames | src/xml_write.rs:83-87 | a valid name that no earlier result took is kept |
| XmlNames.CountedNames | src/xml_write.rs:77-97 | unusable names become c1 and c3 around a column already called C2 |
| XmlNames.NormalizedFieldsAreNamed | src/xml_write.rs:67-75 | normalized names pass the writer's own name check, and normalizing twice is normalizing once |
| AttributeText.EscapeInto | src/xml_write.rs:874-888 | the loop appends the escaped value to the output |
| AttributeText.WriteAttributes | src/xml_write.rs:802-811 | attributes are appended in order exactly when every value consists of XML characters |
| AttributeText.DecodeLoop | src/xml.rs:2288-2322 | the cursor loop over entities computes the specified decoding |
| AttributeText.DecodeEscape | src/xml.rs:2288-2333 | decoding inverts escaping for every string |
| AttributeText.EscapeIsQuoted | src/xml_write.rs:874-888 | an escaped value contains no quote and no angle bracket |
| AttributeText.FindTagEnd | src/xml.rs:2142-2151 | the loop with its quote state finds the first closing bracket outside quotes |
| AttributeText.ParseListLoop | src/xml.rs:2216-2272 | the loop computes the specified attribute list or error |
| AttributeText.ListRoundTrip | src/xml.rs:2216-2272 | the list parser returns exactly the names and values that were written |
| AttributeText.TagRoundTrip | src/xml.rs:2120-2154 | a start tag with any attributes is found with its name, its end, whether it closes itself, and every attribute |
| CharacterReferences.EscapedAs | src/xml_write.rs:874-888 | how each of the eight quoted characters is written, all others standing for themselves |
| CharacterReferences.DecimalReference | src/xml.rs:2288-2333 | a decimal reference decodes to the character of that number, in front of what follows, and is an error where XML allows no such character |
| CharacterReferences.HexReference | src/xml.rs:2288-2333 | so does a hexadecimal one, with either x and digits in either case |
| CharacterReferences.NamedReferences | src/xml.rs:2301-2306 | the five named entities |
| CharacterReferences.UnknownReference | src/xml.rs:2318-2318 | any other entity name is an error |
| ScannedTags.ScannedTag | src/xml.rs:2120-2272 | whatever its quotes, blanks and slashes, a start tag is found with its name, its end outside the quotes and every attribute's decoded value |
| ScannedTags.SlashIsLast | src/xml.rs:2182-2184 | a tag closes itself exactly when a slash is the last thing in it that is not blank |
| ScannedTags.NameGaps | src/xml.rs:2366-2394 | beyond ASCII, which characters may not begin a name and which may not stand in one |
| ScannedTags.NamesWithoutColon | src/xml_write.rs:908-917 | the names the writer accepts are the scanner's names without a colon |
| Namespaces.NamespaceContext.PushDeclarations | src/xml.rs:1946-1966 | the loop updates the context and returns the frame of what it replaced; afterwards every prefix p has what the tag's last attribute xmlns:p says, or its old value, and the default what its last xmlns says |
| Namespaces.NamespaceContext.PopDeclarations | src/xml.rs:1968-1979 | the reverse loop puts back what the frame saved |
| Namespaces.PopUndoesPush | src/xml.rs:1946-1979 | popping a tag's frame restores the context exactly, even with repeated declarations in one tag |
| Namespaces.PushDeclares | src/xml.rs:1946-1966 | after a push every prefix p has the value of the tag's last attribute named xmlns:p, or else its old value, and the default namespace likewise that of xmlns; an empty value undeclares |
| Namespaces.PrefixDeclared | src/xml.rs:1953-1963 | one attribute xmlns:p binds tags p:l to its value, or unbinds them if it is empty, and leaves every other prefix and the default namespace alone |
| Namespaces.DefaultDeclared | src/xml.rs:1949-1952 | one attribute xmlns binds tags without a colon, and no others |
| Namespaces.RunIsOpenElements | src/xml.rs:1597-1637 | after any run of tags the scanner's state is that of the open elements alone |
| Namespaces.NamespaceIsInnermost | src/xml.rs:2051-2058 | after any run of tags the namespace of p:l is what the innermost open element with an attribute named xmlns:p declares, that of a tag without a colon what the innermost xmlns declares |
| Namespaces.ScanTags | src/xml.rs:1591-1644 | the scan with its stack of frames computes that state |
| OffsetMap.PositionMapper.constructor | src/xml.rs:1672-1693 | the loop records a checkpoint behind every character whose replacement has another length |
| OffsetMap.PositionMapper.FindPartition | src/xml.rs:1695-1699 | the binary search finds how many checkpoints lie at or before an offset |
| OffsetMap.PositionMapper.Find | src/xml.rs:1695-1707 | the lookup behind the search yields the specified original offset |
| OffsetMap.SanitizedIsXmlText | src/xml.rs:106-123 | the sanitized text holds XML characters only: every other character has become U+FFFD, and nothing else has changed |
| OffsetMap.CharLengthIsLeast | src/xml.rs:1671-1693 | a character's length in UTF-8 is the least number of bytes whose bits hold it |
| OffsetMap.CheckpointsAscend | src/xml.rs:1672-1693 | checkpoints are in strictly ascending order |
| OffsetMap.OffsetsAreExact | src/xml.rs:1671-1707 | at every character boundary the sanitized position leads back to exactly the original position |
| Decimal.PrintByInsertion | src/xml.rs:3482-3504 | the printer that inserts the point and pops characters computes the specified text |
| Decimal.SplitIsDivision | src/adtg.rs:2955-2963 | cutting the widened digits at the scale is dividing by that power of ten |
| Decimal.PrintersAgree | src/adtg.rs:2955-2975 | the two decimal printers give one text at every magnitude and scale, except that only the dividing one signs zero |
| Decimal.ParseMeaning | src/adtg_write.rs:1738-1776 | every decimal text, signed, padded or not, is read as its number at the wanted scale; a number beyond 128 bits silently reads as zero |
| Decimal.ParsedIsMeant | src/adtg_write.rs:1738-1776 | a text is parsed as the number it stands for exactly when that fits 128 bits, and as zero otherwise |
| Decimal.ParseAcceptsOnlyDecimals | src/adtg_write.rs:1738-1757 | nothing but signs, digits and a point is accepted |
| Decimal.PrintParse | src/adtg_write.rs:1738-1776 | printed decimals parse back to magnitude, scale and the sign of a nonzero number if and only if the magnitude fits 128 bits |
| Decimal.PrintParseWithin | src/adtg_write.rs:1789-1802 | with a precision that bounds the magnitude the descriptor check passes too |
| NumericPayload.TextParsesBack | src/adtg.rs:2955-2975 | a reader's text parses back to the parts the writer encoded |
| NumericPayload.NumericRoundTrip | src/adtg.rs:2677-2698 | a written NUMERIC is read back as parsed if and only if the descriptor has the width, a precision other than zero and no larger scale, and as the number its text stands for if and only if that also fits 128 bits |
| NumericPayload.NumericAccepted | src/adtg.rs:2677-2698 | which nineteen bytes a NUMERIC column takes and as what number, the sign byte being 1 for a positive one |
| NumericPayload.ValidatedNumericRoundTrip | src/adtg_write.rs:609-622 | behind the descriptor check an accepted NUMERIC is read back as the number its text stands for if and only if that fits 128 bits |
| NumericPayload.FiveIsWrittenAsZero | src/adtg_write.rs:1738-1776 | a five in a column of 38 decimal places, which passes every check and is written and read back as zero |
| NumericPayload.ValidatedVarNumericRoundTrip | src/lib.rs:1557-1559 | with the type barred from fixed columns an accepted VARNUMERIC is read back as the number its text stands for, followed by the rest of the input, if and only if that fits 128 bits |
| NumericPayload.DecimalLayout | src/adtg_write.rs:1804-1821 | the high four of twelve magnitude bytes stand before the low eight |
| NumericPayload.DecimalRoundTrip | src/adtg.rs:2607-2675 | a written DECIMAL is read back as the number its text stands for if and only if the reader accepts the descriptor and that number is below 2^96 |
| NumericPayload.DecimalAccepted | src/adtg.rs:2607-2675 | which sixteen bytes a DECIMAL column takes and as what number, for every descriptor the reader accepts |
| NumericPayload.ReservedZero | src/adtg.rs:2657-2666 | a zero of scale zero behind a reserved word of 14 reads as the column's zero whatever the column's scale; behind 0 only where the column has none of its own |
| NumericPayload.TopBitIsDropped | src/adtg_write.rs:1804-1821 | the text of 2^96 in a column of unknown precision is read back as zero |
| NumericPayload.KnownPrecisionFits | src/adtg.rs:1940-1967 | with a known precision the 96 bits always suffice for what was parsed |
| NumericPayload.VariableRoundTrip | src/adtg.rs:2566-2605 | variable-length bytes come back, and the next column starts behind them, if and only if their count fits the length written |
| NumericPayload.VariableLayout | src/adtg_write.rs:1570-1610 | when variable bytes are taken, and how they stand in the row: filled up with zeros in a fixed column of at most 255 bytes, else behind a length of one or four bytes |
| NumericPayload.LengthByteOverflows | src/adtg_write.rs:1593-1608 | 256 bytes in a long column of 255 are written behind a length of zero, and the reader delivers nothing |
| NumericPayload.OnlyLongColumnsOverflow | src/adtg_write.rs:1593-1608 | only a long column can exceed its length field |
| NumericPayload.FindTrimmedLength | src/adtg_write.rs:1652-1660 | the scan finds the last nonzero byte, keeping at least one |
| NumericPayload.TrimmedMagnitudeReads | src/adtg_write.rs:1652-1660 | trimming high zero bytes keeps the number |
| NumericPayload.WrittenPrecisionHolds | src/adtg_write.rs:1630-1678 | the precision written, given or derived from the digit count, bounds the magnitude by its power of ten and passes the reader's checks |
| NumericPayload.VarNumericAccepted | src/adtg.rs:2740-2765 | which bytes are taken for a VARNUMERIC and as what number |
| Decimal.PrecisionIsDigits | src/adtg_write.rs:1789-1802 | a magnitude fits a precision exactly when it has no more digits than that and the precision is at most 38 |
| NumericPayload.VarNumericRoundTrip | src/adtg.rs:2740-2765 | a VARNUMERIC the writer accepts is read back as parsed unless a fixed column of 20 to 255 bytes padded it past 128 bits, and as the number its text stands for if and only if that also fits 128 bits |
| NumericPayload.VarNumericTextParsesBack | src/adtg_write.rs:1738-1776 | the text read back denotes the number that was written |
| XmlDecimal.LimitIsExact | src/xml.rs:3137-3216 | an exponent is refused exactly when the expanded text would be longer than the limit |
| XmlDecimal.ExponentShifts | src/xml.rs:3137-3200 | in all four branches the shifted digits denote the input times ten to the exponent |
| XmlDecimal.KeptFraction | src/xml.rs:3301-3309 | the two digit loops yield the first four fraction digits as ten-thousandths |
| XmlDecimal.HalfEvenIsUnique | src/xml.rs:3315-3333 | a number has only one half-to-even rounding |
| XmlDecimal.CurrencyRounds | src/xml.rs:3269-3333 | on digits of any length the conversion succeeds exactly when ten thousand times the value, rounded half to even, fits a signed 64-bit count, and yields that count |
| XmlDecimal.HalvesGoToEven | src/xml.rs:3315-3333 | concrete halves of a ten-thousandth go to the even neighbour, more than half up and less down |
| XmlDecimal.RoundedExists | src/xml.rs:3315-3333 | every value has such a rounding |
| XmlDecimal.CurrencyTextParsesBack | src/xml.rs:3482-3504 | the currency text parses back to the rounded count |
| CanonicalDecimal.CanonicalIsPrinted | src/native_compare.rs:533-552 | the comparison's canonical text of a plain decimal is the text the printers give its digits |
| CanonicalDecimal.MoreDigitsSameText | src/xml.rs:3482-3504 | writing a number with more fraction digits prints the same text |
| CanonicalDecimal.CanonicalDecidesEquality | src/native_compare.rs:533-552 | two plain decimals of any length have one canonical text if and only if they are the same number |
| Calendar.DaysRoundTrip | src/adtg.rs:2934-2945 | every day number becomes a date within its month, and that date becomes the same day number |
| Calendar.DateRoundTrip | src/adtg_write.rs:2088-2096 | every valid date comes back from its day number |
| Calendar.NextDayIsNextDate | src/util.rs:5-22 | the next day number is the next date of the calendar |
| DateTimeText.TimestampRoundTrip | src/adtg.rs:2837-2859 | every valid timestamp is printed and parsed back to the nanosecond |
| DateTimeText.FiletimeAccepts | src/adtg.rs:2918-2932 | exactly the FILETIMEs below 2650467744000000000, the first of the year 10000, have a text |
| DateTimeText.FiletimeRoundTrip | src/adtg_write.rs:1955-1974 | writing back the text of a FILETIME yields the value rounded down to a multiple of ten million, without overflow |
| DateTimeText.FiletimeOfText | src/adtg_write.rs:1955-1974 | every accepted date from 1601 on has a FILETIME that fits 64 bits and shows the same date and time; earlier dates have none |
| DateTimeText.FiletimeOfUnixEpoch | src/adtg.rs:2918-2932 | the FILETIME 116444736000000000 is 1970-01-01T00:00:00, both ways |
| DateTimeText.TenMillionIsOneSecond | src/adtg.rs:2918-2932 | ten million more on a FILETIME is one second more on the date and time it shows, by the clock and the calendar |
| DateTimeText.SameSecondSameText | src/adtg.rs:2918-2932 | FILETIMEs of one second have one text |
| DateTimeText.DateAccepted | src/adtg_write.rs:2031-2041 | what the date parser takes: three numbers between two hyphens, a date of the calendar from the year 1 to 9999 |
| DateTimeText.TimeAccepted | src/adtg_write.rs:2043-2066 | what the time parser takes: three numbers between two colons, within the day, and at most nine digits of a fraction counted in billionths |
| DateTimeText.OtherForms | src/adtg_write.rs:2020-2029 | a blank separates date and time as well as a T, and a date may stand alone |
| RowMatching.FindPosition | src/native_compare.rs:310-317 | the search returns the first unused matching row |
| RowMatching.MatchRows | src/native_compare.rs:296-324 | the loop with its used flags computes the greedy matching |
| RowMatching.MatchIsSound | src/native_compare.rs:296-324 | a true result always means a one-to-one pairing of matching rows exists |
| RowMatching.GreedyIsFooled | src/native_compare.rs:296-324 | on any four rows that break the rectangle a pairing exists and the greedy loop still answers false |
| RowMatching.ToleranceFoolsGreedy | src/native_compare.rs:513-519 | the float tolerance is not rectangular, and two concrete rows on each side can be paired while the greedy loop calls the views different |
| RowMatching.ToleranceIsOneMillionth | src/native_compare.rs:513-519 | two floats match when a million times their distance is no more than one or than either of them |
| RowMatching.CompleteIffRectangular | src/native_compare.rs:296-324 | the greedy loop finds a pairing whenever there is one if and only if rows that share one partner share all of them |
| RowMatching.EquivalenceIsComplete | src/native_compare.rs:296-324 | for an equivalence the answer is exactly whether a pairing exists |

## Left out

- ADTG header templates, provider source blocks and the search for field descriptors: the streams start at the first row byte, with an agreed schema.
- The hidden provider key suffix of chapter parents and descriptors marked hidden: every modelled column is visible.
- Depth limits, resource limits and `usize` overflow: recursion and lengths are unbounded; the length check of an exponent is the one limit kept, as a parameter.
- IEEE floats and OLE dates: `Value` has no float, and a column of those types has no codec here; the tolerance of the float comparison is the one place they matter.
- Strings, binary, GUID, date, time and variant cells as bytes: the stream results hold for any codec that reads back what it wrote; `ScalarCodec` gives it for the other types only.
- Character encodings, the binary byte tables and the tables of ADO type codes: library and finite behaviour.
- Attribute bits of columns: `nullable` and `keyColumn` stand for the bit tests on them.
- Error texts, warnings and the reports built from them.
- The XML document parser: rows, wrappers and other elements are a datatype, and whether a row element is accepted, ignored or missing is an input.
- Nested chapter elements of XML rows: `UpdategramRows.WriteCell` refuses a chapter column, so the updategram round trip is the flat one; the shaped walk is covered by the walk results through its row builder.
- The duplicate tracker of nested chapter rows and `rs:duplicate`, which carry no value.
- XML value lexing other than decimals and currency: printing and parsing one XML value is a parameter of the row results.
- Comments, CDATA and processing instructions in the raw scanner, and its depth count of foreign schema elements.
- Root prefixes of the raw scanner, which no tag changes.
- Octal, hexadecimal and comma forms of XML decimals, and the exponent's own digits: the shift starts from whole digits, fraction digits and an integer.
- Row matching by field types: the comparison of two rows is an arbitrary relation.
- Name, width and provider comparisons of fields in Recordset comparison.
- The affected and conflicting views, which are always empty.
- CLI, COM oracle, web server, wasm binding, hex diff, string detection and file handling.
- RecordsetModel.ShapeGivesImages: covers the row, change and cell-state clauses of the validator; its clauses on field metadata and on the payload of each type are not part of the model, because they are per-type tables.
- FlatStream.FlatRoundTrip: says that a hazardous row is always lost only where no stored value decodes to Null, which holds of every type but the variant.
- ChapterPipeline.ChapteredRoundTrip: starts from a tree built from row pools that fit the columns; a tree put together by hand, whose nested rows do not match their parents, is not covered, because the reader never builds one.
- ChapterCells.WrittenChanges: compares key cells as values; the source compares their debug texts, which differ exactly when the values do for every kind of value here.
- ReadersFit.FlatReadIsValid: asks that the value codec never decodes to Null, to an omitted cell or to a nested Recordset, which holds of every type but the variant.
- ReadersFit.UpdategramReadIsValid: asks the same of the parser of one XML value; it covers Recordsets without chapters.
- ChapterPipeline.OnlyCellsStopTheWriter: does not model the depth limit, the field count and the length of field names, which the writer also checks, because they bound sizes only.
- ChapterPipeline.ReaderNeedsRelations: takes a column's relation as agreed; the search for it in the descriptor bytes, which finds at most five pairs, is left out with the descriptors.
- ChapterTree.ParsedIdsArePreorder: ends with an error at the last 32-bit id, where the reader's unchecked increment would overflow.
- UpdategramRows.WriteRowLoop: refuses a chapter column where the source writes nested elements, because the nested rows are not part of the updategram model.
- UpdategramWriter.WriteDataLoop: marks every row element it writes as accepted; that the raw scanner accepts it, by its namespace and position, is an input of the walk.
- UpdategramWriter.WalkOfWritten: takes the raw scanner's acceptance of written rows as given, for the same reason.
- UpdategramWriter.UpdategramRoundTrip: asks that the value codec reads back what it prints, cell by cell, and that written rows are accepted by the raw scanner; it covers Recordsets without chapters.
- UpdategramWriter.UpdategramKeepsViews: compares with the values after empty variants have become null, which `UpdategramRows.XmlValuesAreValues` singles out.
- Namespaces.ScanTags: leaves out comments, CDATA and the depth count of foreign schema elements, which declare no namespace.
- ScalarCodec.StorableRoundTrips: covers decimal and FILETIME texts in the form the readers print, because only those can come back as the same text.
- RowMatching.ToleranceFoolsGreedy: states the tolerance over real numbers, because rounding is not the point.
- DateTimeText.FiletimeRoundTrip: covers the text of whole seconds, which is all the reader prints.
