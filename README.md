# DICOM object database: a verified model

This project models the DICOM object database of CTK (`ctkDICOMDatabase`)
as an in-memory state machine and proves what its interface promises.

The database is a catalog of DICOM objects. Objects form a four-level
hierarchy, patient → study → series → instance. This is the patient-root
information model of section C.6.1 of DICOM PS3.4. A relational store holds
the catalog. Beside the store file, added objects are kept in a `dicom`
tree laid out as `<study>/<series>/<uid>`. Thumbnails go in a parallel
`thumbs` tree. In memory mode (database file `":memory:"`) nothing is
written to the file system. The handle also holds one "current header",
which is the elements of the last file it loaded. Tag keys are
`"GGGG,EEEE"` strings in zero-filled hex; each half is a 16-bit number, as
in the data element tag of section 7.1.1 of DICOM PS3.5.

The model follows the documentation comments of the class declaration in
Libs/DICOM/Core/ctkDICOMDatabase.h. Where they are silent, it makes a
stated choice, listed below.

Modules, one per file:

- `Wrappers` (wrappers.dfy): `Option`.
- `Tags` (tags.dfy): the `unsigned short` type, tags, hex formatting of keys
  and `TagToGroupElement`, with both round trips proved.
- `Header` (header.dfy): datasets, seen as maps from tag to value. Also
  `headerKeys`, `headerValue` and the two `fileValue` overloads.
- `Paths` (paths.dfy): the file layout and `databaseDirectory`, and proofs
  that paths are collision-free.
- `Catalog` (catalog.dfy): the patient, study, series and image tables. It
  holds the read-only queries and pure table updates for insert, the three
  removals and cleanup, plus the lemmas about them.
- `Database` (database.dfy): class `DicomDatabase`, the handle. Its fields
  are the open flag, the database file, the tables, the files on disk, the
  current header and whether a thumbnail generator is set. Its methods keep
  the invariant `Valid()`:
  - the tables are consistent bottom-up;
  - the file trees hold exactly the files the rows account for;
  - a database in memory has no files.

Choices the header leaves open:

- An insert needs a patient ID. It then adds levels top-down and stops at
  the first level the dataset does not identify. A UID that is already
  present keeps its parent.
- A complete object whose SOP instance UID is already present changes
  nothing, so no duplicate row can arise.
- A stored object's path uses the study its series belongs to in the tables.
  So after a study is removed, nothing remains under that study's directory.
- An image row remembers the file its object was read from, if any. It
  references its stored copy when one is made. Otherwise it
  references the file it was read from, or nothing.
- `cleanup` drops the image rows whose referenced file no longer exists.
  The header gives it no documentation.
- Table operations on a handle that is not open change nothing: inserts,
  removals, cleanup and initialization leave the tables and files as they
  are, removals return false, and the catalog queries return empty results.
  The model does not forbid these calls with a precondition. The header
  cache (`loadFileHeader`, `headerKeys`, `headerValue`, `fileValue`) and
  `setThumbnailGenerator` do not depend on the open state, and closing
  keeps the current header. On a closed handle `loadInstanceHeader` finds
  no file for the instance and so empties the header.
- Keys are formatted with lower-case hex digits. `TagToGroupElement` accepts
  either case and any number of digits, as long as the value fits in 16 bits.

## Model

| member | source | states |
|---|---|---|
| `Tags.TagToGroupElementMeaning` | Libs/DICOM/Core/ctkDICOMDatabase.h:174 | The parser succeeds with tag t exactly when the key is non-empty hex, a comma, non-empty hex, and the two numbers are t's group and element (both directions). |
| `Tags.TagRoundTrip` | Libs/DICOM/Core/ctkDICOMDatabase.h:126 | For every 16-bit group and element, the zero-filled `"GGGG,EEEE"` key parses back to the same tag. |
| `Tags.CanonicalKeyRoundTrip` | Libs/DICOM/Core/ctkDICOMDatabase.h:126 | Every key of four lower-case hex digits, a comma and four more parses, and formatting the result gives the key back. |
| `Tags.FormatTagInjective` | Libs/DICOM/Core/ctkDICOMDatabase.h:126 | Two tags have the same key if and only if they are the same tag. |
| `Tags.HexDigits` | Libs/DICOM/Core/ctkDICOMDatabase.h:126 | Formatting gives exactly `width` zero-filled lower-case hex digits. |
| `Tags.HexDigitsValue` | Libs/DICOM/Core/ctkDICOMDatabase.h:126 | A number that fits in `width` digits, once formatted, reads back as the number. |
| `Tags.ValueHexDigits` | Libs/DICOM/Core/ctkDICOMDatabase.h:126 | A lower-case digit string reads as a number below 16^width, and formatting that number gives the string back. |
| `Header.HeaderKeysExact` | Libs/DICOM/Core/ctkDICOMDatabase.h:121-130 | `headerKeys` lists exactly the loaded tags, once each, as canonical keys; each key parses to a loaded tag, and `headerValue` of it is that element's value. |
| `Header.KeysCardinality` | Libs/DICOM/Core/ctkDICOMDatabase.h:129 | There are as many header keys as loaded elements. |
| `Header.HeaderValueOfTag` | Libs/DICOM/Core/ctkDICOMDatabase.h:130 | `headerValue` of a tag's key is the loaded value, or the empty string when the header lacks the element. |
| `Header.MalformedKeyReadsEmpty` | Libs/DICOM/Core/ctkDICOMDatabase.h:166-172 | A key that does not parse reads as the empty string from the header and from a file. |
| `Header.FileValueOverloadsAgree` | Libs/DICOM/Core/ctkDICOMDatabase.h:161-173 | The key and (group, element) overloads of `fileValue` agree. A present element of a readable file reads its value; a non-empty result is always that element; a missing file or element gives "". |
| `Paths.DirectoryOfJoin` | Libs/DICOM/Core/ctkDICOMDatabase.h:68-72 | The database directory of a file placed in directory d is d. |
| `Paths.JoinInjective` | Libs/DICOM/Core/ctkDICOMDatabase.h:44-48 | A path splits uniquely at its last separator. |
| `Paths.TreePathInjective` | Libs/DICOM/Core/ctkDICOMDatabase.h:44-48 | `<dir>/<tree>/<study>/<series>/<uid>` is deterministic and collision-free: two locations get the same path if and only if they are equal. |
| `Paths.TreesDisjoint` | Libs/DICOM/Core/ctkDICOMDatabase.h:44-50 | No object path in the `dicom` tree equals a thumbnail path in the parallel `thumbs` tree. |
| `Paths.EntryPathInjective` | Libs/DICOM/Core/ctkDICOMDatabase.h:44-50 | Distinct object files or thumbnails never share a path. |
| `Paths.UnderStudyDirectory` | Libs/DICOM/Core/ctkDICOMDatabase.h:46-48 | A file lies under a study's directory if and only if it belongs to that study. |
| `Catalog.FileFor` | Libs/DICOM/Core/ctkDICOMDatabase.h:141-144 | A stored copy is made exactly when `storeFile` is set outside memory mode, so in memory mode the flag is ignored. The row always remembers the file the object came from, and references nothing only when there is no such file and no copy. |
| `Catalog.InsertConsistent` | Libs/DICOM/Core/ctkDICOMDatabase.h:132-140 | Insert keeps the hierarchy consistent bottom-up: every row's parent exists. |
| `Catalog.InsertIdempotent` | Libs/DICOM/Core/ctkDICOMDatabase.h:132 | Inserting the same dataset twice gives the state of inserting it once, and the second insert writes no file. |
| `Catalog.InsertExistingInstance` | Libs/DICOM/Core/ctkDICOMDatabase.h:132 | A complete object whose instance is already present changes no row and writes no file. |
| `Catalog.InsertOnlyAdds` | Libs/DICOM/Core/ctkDICOMDatabase.h:132-140 | Every earlier row stays with the same parent. Only the dataset's own patient, study, series and instance can be added. |
| `Catalog.InsertCreatesCarriedLevels` | Libs/DICOM/Core/ctkDICOMDatabase.h:133-144 | A partial dataset creates every level it identifies, with new rows under the dataset's parents. Without a complete object, no image row is added and no file is written. |
| `Catalog.InsertWithoutFiles` | Libs/DICOM/Core/ctkDICOMDatabase.h:41-44 | An insert that stores no copy and makes no thumbnail puts no file in either tree. |
| `Catalog.InsertNewObject` | Libs/DICOM/Core/ctkDICOMDatabase.h:141-147 | A new complete object gets its row under its series. `fileForInstance` then gives its path in the `dicom` tree, the file it came from, or "". |
| `Catalog.InsertEntries` | Libs/DICOM/Core/ctkDICOMDatabase.h:141-149 | After an insert, the files under the database directory are the earlier ones plus exactly what the insert wrote. |
| `Catalog.HierarchyIntegrity` | Libs/DICOM/Core/ctkDICOMDatabase.h:115-119 | Every instance is reachable from `patients` through `studiesForPatient` and `seriesForStudy`. Its file, if any, is among `filesForSeries` of its series. |
| `Catalog.RemoveSeriesCascade` | Libs/DICOM/Core/ctkDICOMDatabase.h:154-156 | After `removeSeries(s)`: s is in no study's list, `filesForSeries(s)` is empty, and its former instances have no file. Exactly its images and thumbnails leave the disk. |
| `Catalog.RemoveSeriesFrame` | Libs/DICOM/Core/ctkDICOMDatabase.h:154-156 | `removeSeries(s)` leaves patients, studies, every other series' images and files, and every other instance's file unchanged. |
| `Catalog.RemoveStudyCascade` | Libs/DICOM/Core/ctkDICOMDatabase.h:157 | After `removeStudy`: the study is in no patient's list, and none of its series, images or files remain. Exactly their files and thumbnails leave the disk. |
| `Catalog.RemoveStudyFrame` | Libs/DICOM/Core/ctkDICOMDatabase.h:157 | `removeStudy` leaves patients, other studies' series, and the images and files of every other series unchanged. |
| `Catalog.RemoveStudyLeavesStudyDirectoryEmpty` | Libs/DICOM/Core/ctkDICOMDatabase.h:45-48 | After `removeStudy`, no object file or thumbnail lies under that study's directory. |
| `Catalog.RemovePatientCascade` | Libs/DICOM/Core/ctkDICOMDatabase.h:158 | After `removePatient`: the patient is not listed, and none of its studies, series, images or files remain. Exactly their files and thumbnails leave the disk. |
| `Catalog.RemovePatientFrame` | Libs/DICOM/Core/ctkDICOMDatabase.h:158 | `removePatient` leaves other patients' studies and series, and the images and files of every other series, unchanged. |
| `Catalog.CleanupProperties` | Libs/DICOM/Core/ctkDICOMDatabase.h:159 | After `cleanup`, no row references a missing file. Rows whose file is present are kept, and the other tables are unchanged. Exactly the dropped rows' files and thumbnails go. |
| `Catalog.SubCatalogKeepsFiles` | Libs/DICOM/Core/ctkDICOMDatabase.h:154-159 | An instance that survives a removal keeps its location and file. The files removed are exactly those of the dropped rows. |
| `Database.OpenedTables` | Libs/DICOM/Core/ctkDICOMDatabase.h:93-104 | Memory mode and a missing file open as the empty tables of the default schema. An existing, consistent store outside memory mode opens with its own tables. Opening fails exactly for a damaged or inconsistent existing store outside memory mode. Opened tables are always consistent. |
| `Database.DicomDatabase.constructor` | Libs/DICOM/Core/ctkDICOMDatabase.h:60 | A new handle is closed and empty. |
| `Database.DicomDatabase.WithFile` | Libs/DICOM/Core/ctkDICOMDatabase.h:61 | A handle built on a database file is opened on it. |
| `Database.DicomDatabase.OpenDatabase` | Libs/DICOM/Core/ctkDICOMDatabase.h:74-104 | The handle is bound to the file and is open exactly when the open succeeds. In memory mode (`":memory:"`) the tables and the disk start empty. The invariant holds afterwards. |
| `Database.DicomDatabase.CloseDatabase` | Libs/DICOM/Core/ctkDICOMDatabase.h:106-108 | `isOpen()` is false afterwards and the catalog queries answer with empty results. A database in memory vanishes. The current header and the generator setting are kept. |
| `Database.DicomDatabase.InitializeDatabase` | Libs/DICOM/Core/ctkDICOMDatabase.h:109-111 | An open database loses all its rows and files. It returns whether the database was open. |
| `Database.DicomDatabase.SetThumbnailGenerator` | Libs/DICOM/Core/ctkDICOMDatabase.h:86-88 | Records whether a thumbnail generator is set. |
| `Database.DicomDatabase.Ingest` | Libs/DICOM/Core/ctkDICOMDatabase.h:141-149 | The shared steps of every insert overload. The new tables are the pure insert of the old ones; the disk gains exactly the written files; in memory mode the disk stays empty. |
| `Database.DicomDatabase.InsertDataset` | Libs/DICOM/Core/ctkDICOMDatabase.h:132-147 | The dataset overload of `insert`. |
| `Database.DicomDatabase.InsertFile` | Libs/DICOM/Core/ctkDICOMDatabase.h:149-152 | The file overload of `insert`. An unreadable file, or the empty name, changes nothing. A new complete object references its stored copy, or the file itself. Both that file and the inserted source file then count as existing and up to date. |
| `Database.DicomDatabase.FileExistsAndUpToDate` | Libs/DICOM/Core/ctkDICOMDatabase.h:151-152 | True exactly for a non-empty file of an open database that some image row references or was read from, and that has not changed since (both directions). |
| `Database.DicomDatabase.RemoveSeries` | Libs/DICOM/Core/ctkDICOMDatabase.h:154-156 | Returns whether the series existed in an open database. Its rows and files go. It leaves no `seriesForStudy` entry, file list or instance file for the series. |
| `Database.DicomDatabase.RemoveStudy` | Libs/DICOM/Core/ctkDICOMDatabase.h:157 | Returns whether the study existed. Its rows and files go, and no file of the study remains on disk. |
| `Database.DicomDatabase.RemovePatient` | Libs/DICOM/Core/ctkDICOMDatabase.h:158 | Returns whether the patient existed. Its rows and files go, and the patient is no longer listed. |
| `Database.DicomDatabase.Cleanup` | Libs/DICOM/Core/ctkDICOMDatabase.h:159 | Drops the rows whose file is gone, with their thumbnails. Afterwards every instance file exists or is "". |
| `Database.DicomDatabase.LoadFileHeader` | Libs/DICOM/Core/ctkDICOMDatabase.h:121-130 | Replaces the current header with the file's elements, or with nothing when the file is unreadable. `headerKeys` then lists exactly those tags, and `headerValue` reads them. |
| `Database.DicomDatabase.LoadInstanceHeader` | Libs/DICOM/Core/ctkDICOMDatabase.h:121-127 | Loads the header of the file the database holds for the instance. |
| `Database.DicomDatabase.InstanceValue` | Libs/DICOM/Core/ctkDICOMDatabase.h:161-170 | For a parsable key and a readable file of the instance, returns that element's value, or "" when the element is missing. Returns "" for an unknown instance or an unparsable key. The current header is not touched. |
| `Database.DicomDatabase.InstanceElementValue` | Libs/DICOM/Core/ctkDICOMDatabase.h:171 | Returns the element of the instance's readable file, or "" when it is missing. Agrees with the key overload on the tag's key. |
| `Tags.FormatTag` | Libs/DICOM/Core/ctkDICOMDatabase.h:126 | Formats a tag as a canonical key: four lower-case hex digits, a comma and four more. Its round trip with the parser is `Tags.TagRoundTrip`. |
| `Tags.TagToGroupElement` | Libs/DICOM/Core/ctkDICOMDatabase.h:174 | `tagToGroupElement`, returning the tag, or nothing where the source returns false. What it accepts is stated by `Tags.TagToGroupElementMeaning`. |
| `Header.HeaderKeys` | Libs/DICOM/Core/ctkDICOMDatabase.h:129 | `headerKeys` of a header; its meaning is stated by `Header.HeaderKeysExact` and `Header.KeysCardinality`. |
| `Header.HeaderValue` | Libs/DICOM/Core/ctkDICOMDatabase.h:130 | `headerValue` of a header; its meaning is stated by `Header.HeaderValueOfTag` and `Header.MalformedKeyReadsEmpty`. |
| `Header.FileValue` | Libs/DICOM/Core/ctkDICOMDatabase.h:172 | `fileValue` with a key; it is related to the other overload by `Header.FileValueOverloadsAgree`. |
| `Header.FileElementValue` | Libs/DICOM/Core/ctkDICOMDatabase.h:173 | `fileValue` with group and element; its meaning is stated by `Header.FileValueOverloadsAgree`. |
| `Paths.DirectoryOf` | Libs/DICOM/Core/ctkDICOMDatabase.h:68-72 | The directory the database file resides in; stated by `Paths.DirectoryOfJoin`. |
| `Paths.StoragePath` | Libs/DICOM/Core/ctkDICOMDatabase.h:44-48 | `<dir>/dicom/<study>/<series>/<uid>`; collision-freedom is `Paths.TreePathInjective`. |
| `Paths.ThumbnailPath` | Libs/DICOM/Core/ctkDICOMDatabase.h:49-50 | The same layout in the parallel `thumbs` tree; disjointness is `Paths.TreesDisjoint`. |
| `Catalog.Insert` | Libs/DICOM/Core/ctkDICOMDatabase.h:132-147 | The table update of `insert`; its properties are the `Catalog.Insert*` lemmas. |
| `Catalog.RemoveSeries` | Libs/DICOM/Core/ctkDICOMDatabase.h:154-156 | The table update of `removeSeries`; stated by `Catalog.RemoveSeriesCascade` and `Catalog.RemoveSeriesFrame`. |
| `Catalog.RemoveStudy` | Libs/DICOM/Core/ctkDICOMDatabase.h:157 | The table update of `removeStudy`; stated by `Catalog.RemoveStudyCascade` and `Catalog.RemoveStudyFrame`. |
| `Catalog.RemovePatient` | Libs/DICOM/Core/ctkDICOMDatabase.h:158 | The table update of `removePatient`; stated by `Catalog.RemovePatientCascade` and `Catalog.RemovePatientFrame`. |
| `Catalog.Cleanup` | Libs/DICOM/Core/ctkDICOMDatabase.h:159 | The table update of `cleanup`; stated by `Catalog.CleanupProperties`. |
| `Database.DicomDatabase.DatabaseFilename` | Libs/DICOM/Core/ctkDICOMDatabase.h:57-66 | `databaseFilename`: the field `databaseFile`, which `OpenDatabase` sets to the file it was given, as its contract states. |
| `Database.DicomDatabase.IsOpen` | Libs/DICOM/Core/ctkDICOMDatabase.h:74-77 | `isOpen`: the field `isOpen`, set exactly when `OpenDatabase` succeeds and cleared by `CloseDatabase`, as their contracts state. |
| `Database.DicomDatabase.IsInMemory` | Libs/DICOM/Core/ctkDICOMDatabase.h:79-84 | `isInMemory`: the database file is `":memory:"`. `Valid()` keeps such a database free of files. |
| `Database.DicomDatabase.DatabaseDirectory` | Libs/DICOM/Core/ctkDICOMDatabase.h:68-72 | `databaseDirectory`, the directory part of the database file. |
| `Database.DicomDatabase.Patients` | Libs/DICOM/Core/ctkDICOMDatabase.h:115 | `patients`; empty on a closed handle. Reachability is `Catalog.HierarchyIntegrity`. |
| `Database.DicomDatabase.StudiesForPatient` | Libs/DICOM/Core/ctkDICOMDatabase.h:116 | `studiesForPatient`; empty on a closed handle. |
| `Database.DicomDatabase.SeriesForStudy` | Libs/DICOM/Core/ctkDICOMDatabase.h:117 | `seriesForStudy`; empty on a closed handle. |
| `Database.DicomDatabase.FilesForSeries` | Libs/DICOM/Core/ctkDICOMDatabase.h:118 | `filesForSeries`; empty on a closed handle. |
| `Database.DicomDatabase.FileForInstance` | Libs/DICOM/Core/ctkDICOMDatabase.h:119 | `fileForInstance`; "" for an unknown instance or a closed handle. |
| `Database.DicomDatabase.HeaderKeys` | Libs/DICOM/Core/ctkDICOMDatabase.h:129 | `headerKeys` of the current header; stated by `Database.DicomDatabase.LoadFileHeader`. |
| `Database.DicomDatabase.HeaderValue` | Libs/DICOM/Core/ctkDICOMDatabase.h:130 | `headerValue` of the current header; stated by `Database.DicomDatabase.LoadFileHeader`. |

## Left out

- The SQLite store behind `QSqlDatabase`, the `database()` accessor, `lastError()` and the destructor. The tables are abstract maps instead.
- The connection name: `OpenDatabase` accepts it and ignores it.
- The schema script of `initializeDatabase`: `InitializeDatabase` accepts `schemaFile` and ignores it. It only starts from empty tables.
- Real file-system reads, writes and deletes. Files the database writes appear as the `disk` set. Files it reads appear as a `Files` parameter. Which files still exist when `cleanup` runs is its `present` parameter. On open, `disk` is taken to be the files the store's rows account for; files deleted from outside show up only through `present` in `cleanup`.
- Database.DicomDatabase.FileExistsAndUpToDate: the staleness test (timestamp or checksum) is not modelled. The caller passes it as `modifiedSinceInsert`.
- Some file-system failures are not modelled: failures while writing or deleting files, and a failed thumbnail generation. So `remove*` returns false only for an unknown entity or a closed handle.
- Database.DicomDatabase.InstanceValue: the contents of stored copies are not modelled. A copy in the `dicom` tree reads as whatever the caller's `files` holds for its path, which need not be the dataset it was copied from. The same holds for `InstanceElementValue` and `LoadInstanceHeader`.
- Database.DicomDatabase.InsertDataset: a dataset insert in memory mode, or without `storeFile`, has no file to reference. The new instance's `fileForInstance` is then "", and `instanceValue` for it reads "". The dataset's elements are not kept for later lookups.
- Re-ingesting an object whose instance is present but whose source file has changed. Such an insert changes nothing here.
- Deleting files the database did not write. A row may reference the file an object was read from; removal does not delete that file.
- The `DcmDataset*` overload of `insert` and the internals of `ctkDICOMDataset`. A dataset is a map from tag to value.
- Patient identity is the Patient ID element alone, not a composite with the patient's name.
- Thumbnail pixel generation. Only whether a generator is set, and whether a thumbnail file exists, are modelled. The `thumbnailGenerator()` getter is the field `hasThumbnailGenerator`.
- The `createHierarchy` and `destinationDirectoryName` parameters of the file overload of `insert`. The header documents no effect for them, and `InsertFile` ignores them.
- The `databaseChanged` signal and the `QObject`/`Q_PROPERTY` plumbing, which is event wiring with no stated behaviour.
- `databaseDirectory` is the directory part of the given file name, with "/" as separator. Conversion to an absolute, OS-preferred path is not modelled.
- Catalog.RemoveStudyLeavesStudyDirectoryEmpty: this holds for study UIDs that are single path components, which DICOM UIDs (digits and dots) are.
- Paths.TreePathInjective and Paths.EntryPathInjective: the same condition on UIDs applies. The disk is modelled by structured entries, so the invariant does not depend on it.
- Query results (`QStringList`) are sets; their order is not modelled.
- Libs/Widgets/ctkSliderWidget.h and Plugins/org.commontk.dah.exampleapp/ctkExampleDicomAppLogic_p.h are not part of this model. They are UI and plugin glue around the database.
