/**
 * The database handle: a catalog of DICOM objects backed by a relational
 * store, with the objects themselves kept in a file tree beside the store
 * file, and one "current header" loaded on demand.
 *
 * The handle is open or closed, and in memory mode when its database file is
 * ":memory:". In memory mode nothing is written to the file system; otherwise
 * objects go to <databaseDirectory>/dicom/<study>/<series>/<uid> and
 * thumbnails to the parallel "thumbs" tree. Table operations on a handle
 * that is not open change nothing; removals then report false and the
 * catalog queries answer with empty results. The header cache and the
 * thumbnail generator setting do not depend on the open state.
 */
module Database {
  import opened Wrappers
  import opened Tags
  import opened Header
  import opened Paths
  import opened Catalog

  /** The database file name that selects memory mode. */
  const MemoryDatabase := ":memory:"

  const DefaultConnectionName := "DICOM-DB"

  /** What the database file holds when it is opened. */
  datatype StoreFile = NoStore | Existing(contents: Tables) | Damaged

  /**
   * openDatabase: memory mode and a missing file both start from empty
   * tables (the default schema); an existing store is opened as it is,
   * unless it is damaged or its tables are inconsistent, when the open fails.
   */
  function OpenedTables(databaseFile: string, store: StoreFile): (r: Option<Tables>)
    ensures r.Some? ==> Consistent(r.value)
    ensures databaseFile == MemoryDatabase ==> r == Some(Empty)
    ensures store.NoStore? ==> r == Some(Empty)
    ensures databaseFile != MemoryDatabase && store.Existing? && Consistent(store.contents) ==> r == Some(store.contents)
    ensures r.None? <==> databaseFile != MemoryDatabase && (store.Damaged? || (store.Existing? && !Consistent(store.contents)))
  {
    if databaseFile == MemoryDatabase then Some(Empty)
    else
      match store
      case NoStore => Some(Empty)
      case Existing(c) => if Consistent(c) then Some(c) else None
      case Damaged => None
  }

  class DicomDatabase {
    var isOpen: bool
    var databaseFile: string
    /** The patient, study, series and image tables. */
    var tables: Tables
    /** The object files and thumbnails under the database directory. */
    var disk: set<DiskEntry>
    /** The current header: the elements of the last file loaded. */
    var header: Dataset
    var hasThumbnailGenerator: bool

    /**
     * The tables are consistent bottom-up, the file trees hold exactly the
     * files the rows account for (no orphans either way), and a database in
     * memory has no files at all.
     */
    ghost predicate Valid()
      reads this
    {
      && Consistent(tables)
      && disk == Entries(tables)
      && (IsInMemory() ==> NoManagedFiles(tables) && disk == {})
    }

    /** isOpen */
    function IsOpen(): bool
      reads this
    {
      isOpen
    }

    /** databaseFilename */
    function DatabaseFilename(): string
      reads this
    {
      databaseFile
    }

    /** isInMemory */
    function IsInMemory(): bool
      reads this
    {
      databaseFile == MemoryDatabase
    }

    /** databaseDirectory */
    function DatabaseDirectory(): string
      reads this
    {
      DirectoryOf(databaseFile)
    }

    /** Whether an insert asked for a thumbnail will make one: not in memory mode, and only with a generator. */
    function ThumbnailFor(generateThumbnail: bool): bool
      reads this
    {
      generateThumbnail && hasThumbnailGenerator && !IsInMemory()
    }

    // -------------------------------------------------------------- queries

    /** patients */
    function Patients(): set<string>
      reads this
    {
      if isOpen then Catalog.Patients(tables) else {}
    }

    /** studiesForPatient */
    function StudiesForPatient(patient: string): set<string>
      reads this
    {
      if isOpen then Catalog.StudiesForPatient(tables, patient) else {}
    }

    /** seriesForStudy */
    function SeriesForStudy(study: string): set<string>
      reads this
    {
      if isOpen then Catalog.SeriesForStudy(tables, study) else {}
    }

    /** filesForSeries */
    function FilesForSeries(series: string): set<string>
      reads this
      requires Valid()
    {
      if isOpen then Catalog.FilesForSeries(tables, DatabaseDirectory(), series) else {}
    }

    /** fileForInstance */
    function FileForInstance(instance: string): string
      reads this
      requires Valid()
    {
      if isOpen then Catalog.FileForInstance(tables, DatabaseDirectory(), instance) else ""
    }

    /**
     * fileExistsAndUpToDate: some image row references the file, or was
     * read from it, and the file has not changed since; the comparison itself
     * is the caller's `modifiedSinceInsert`.
     */
    function FileExistsAndUpToDate(filePath: string, modifiedSinceInsert: bool): (r: bool)
      reads this
      requires Valid()
      ensures r <==>
        && isOpen && !modifiedSinceInsert && filePath != ""
        && exists i | i in tables.images :: FileForInstance(i) == filePath || SourceOf(tables.images[i].file) == filePath
    {
      isOpen && !modifiedSinceInsert && filePath in AllFiles(tables, DatabaseDirectory()) + SourceFiles(tables)
    }

    /** headerKeys */
    function HeaderKeys(): set<string>
      reads this
    {
      Header.HeaderKeys(header)
    }

    /** headerValue */
    function HeaderValue(key: string): string
      reads this
    {
      Header.HeaderValue(header, key)
    }

    /** instanceValue with a "GGGG,EEEE" key; the current header is not involved. */
    function InstanceValue(instance: string, key: string, files: Files): (v: string)
      reads this
      requires Valid()
      ensures FileForInstance(instance) == "" || TagToGroupElement(key).None? ==> v == ""
      ensures v != "" ==>
        && TagToGroupElement(key).Some? && FileForInstance(instance) in files
        && TagToGroupElement(key).value in files[FileForInstance(instance)]
        && v == files[FileForInstance(instance)][TagToGroupElement(key).value]
      ensures TagToGroupElement(key).Some? && FileForInstance(instance) != "" && FileForInstance(instance) in files ==>
        v == ElementValue(files[FileForInstance(instance)], TagToGroupElement(key).value)
    {
      FileValue(files, FileForInstance(instance), key)
    }

    /** instanceValue with explicit group and element; "" when the element is missing. */
    function InstanceElementValue(instance: string, group: uint16, element: uint16, files: Files): (v: string)
      reads this
      requires Valid()
      ensures FileForInstance(instance) == "" ==> v == ""
      ensures v == InstanceValue(instance, FormatTag(Tag(group, element)), files)
      ensures v != "" ==> var f := FileForInstance(instance);
        f in files && Tag(group, element) in files[f] && v == files[f][Tag(group, element)]
      ensures FileForInstance(instance) != "" && FileForInstance(instance) in files ==>
        v == ElementValue(files[FileForInstance(instance)], Tag(group, element))
    {
      FileValueOverloadsAgree(files, FileForInstance(instance), group, element);
      FileElementValue(files, FileForInstance(instance), group, element)
    }

    // ------------------------------------------------------------ lifecycle

    /** A handle that is not open. */
    constructor ()
      ensures Valid() && !isOpen && databaseFile == ""
      ensures tables == Empty && disk == {} && header == map[] && !hasThumbnailGenerator
    {
      isOpen := false;
      databaseFile := "";
      tables := Empty;
      disk := {};
      header := map[];
      hasThumbnailGenerator := false;
    }

    /** A handle opened on `databaseFile` under the default connection name. */
    constructor WithFile(databaseFile: string, store: StoreFile)
      ensures Valid() && this.databaseFile == databaseFile
      ensures isOpen == OpenedTables(databaseFile, store).Some?
      ensures tables == OpenedTables(databaseFile, store).GetOr(Empty)
      ensures header == map[] && !hasThumbnailGenerator
    {
      isOpen := false;
      this.databaseFile := "";
      tables := Empty;
      disk := {};
      header := map[];
      hasThumbnailGenerator := false;
      new;
      OpenDatabase(databaseFile, DefaultConnectionName, store);
    }

    /**
     * openDatabase: binds the handle to `databaseFile`, whose current
     * contents are `store`. A failed open leaves the handle closed.
     */
    method OpenDatabase(databaseFile: string, connectionName: string, store: StoreFile)
      modifies this
      ensures Valid() && this.databaseFile == databaseFile
      ensures isOpen == OpenedTables(databaseFile, store).Some?
      ensures tables == OpenedTables(databaseFile, store).GetOr(Empty)
      ensures IsInMemory() ==> tables == Empty && disk == {}
      ensures header == old(header) && hasThumbnailGenerator == old(hasThumbnailGenerator)
    {
      this.databaseFile := databaseFile;
      var result := OpenedTables(databaseFile, store);
      isOpen := result.Some?;
      tables := result.GetOr(Empty);
      disk := Entries(tables);
    }

    /** closeDatabase: the handle is closed; a database in memory vanishes. */
    method CloseDatabase()
      requires Valid()
      modifies this
      ensures Valid() && !isOpen
      ensures tables == (if IsInMemory() then Empty else old(tables))
      ensures disk == (if IsInMemory() then {} else old(disk))
      ensures databaseFile == old(databaseFile) && header == old(header)
      ensures hasThumbnailGenerator == old(hasThumbnailGenerator)
      ensures Patients() == {}
    {
      isOpen := false;
      if IsInMemory() {
        tables := Empty;
        disk := {};
      }
    }

    /** initializeDatabase: deletes all data of an open database and starts again from empty tables. */
    method InitializeDatabase(schemaFile: string) returns (ok: bool)
      requires Valid()
      modifies this`tables, this`disk
      ensures Valid()
      ensures ok == isOpen
      ensures tables == (if ok then Empty else old(tables))
      ensures disk == (if ok then {} else old(disk))
    {
      ok := isOpen;
      if ok {
        disk := {};
        tables := Empty;
      }
    }

    /** setThumbnailGenerator */
    method SetThumbnailGenerator(present: bool)
      modifies this`hasThumbnailGenerator
      ensures hasThumbnailGenerator == present
    {
      hasThumbnailGenerator := present;
    }

    // ------------------------------------------------------------ ingestion

    /**
     * The steps every insert overload funnels through: the object file and
     * the thumbnail are written first, then the rows are committed.
     */
    method Ingest(ds: Dataset, origin: string, storeFile: bool, generateThumbnail: bool)
      requires Valid()
      modifies this`tables, this`disk
      ensures Valid()
      ensures var id, file, thumbnail := IdentityOf(ds), FileFor(IsInMemory(), storeFile, origin), ThumbnailFor(generateThumbnail);
        && tables == (if isOpen then Insert(old(tables), id, file, thumbnail) else old(tables))
        && disk == (if isOpen then old(disk) + Written(old(tables), id, file, thumbnail) else old(disk))
      ensures IsInMemory() ==> disk == {}
    {
      if isOpen {
        var id, file, thumbnail := IdentityOf(ds), FileFor(IsInMemory(), storeFile, origin), ThumbnailFor(generateThumbnail);
        InsertEntries(tables, id, file, thumbnail);
        if IsInMemory() {
          InsertWithoutFiles(tables, id, file, thumbnail);
        }
        disk := disk + Written(tables, id, file, thumbnail);
        tables := Insert(tables, id, file, thumbnail);
      }
    }

    /**
     * insert (dataset overload): adds the dataset's levels if not already
     * present; in memory mode `storeFile` is ignored.
     */
    method InsertDataset(ds: Dataset, storeFile: bool, generateThumbnail: bool)
      requires Valid()
      modifies this`tables, this`disk
      ensures Valid()
      ensures var id, file, thumbnail := IdentityOf(ds), FileFor(IsInMemory(), storeFile, ""), ThumbnailFor(generateThumbnail);
        && tables == (if isOpen then Insert(old(tables), id, file, thumbnail) else old(tables))
        && disk == (if isOpen then old(disk) + Written(old(tables), id, file, thumbnail) else old(disk))
      ensures IsInMemory() ==> disk == {}
    {
      Ingest(ds, "", storeFile, generateThumbnail);
    }

    /**
     * insert (file overload): reads `filePath` and inserts its dataset; an
     * unreadable file changes nothing. A new complete object then references
     * its stored copy, or the file itself when no copy is stored; both that
     * file and the file it was read from count as in the database and up to
     * date.
     */
    method InsertFile(filePath: string, files: Files, storeFile: bool, generateThumbnail: bool,
                      createHierarchy: bool, destinationDirectoryName: string)
      requires Valid()
      modifies this`tables, this`disk
      ensures Valid()
      ensures !(filePath != "" && filePath in files) ==> tables == old(tables) && disk == old(disk)
      ensures filePath != "" && filePath in files ==>
        var id, file, thumbnail := IdentityOf(files[filePath]), FileFor(IsInMemory(), storeFile, filePath), ThumbnailFor(generateThumbnail);
        && tables == (if isOpen then Insert(old(tables), id, file, thumbnail) else old(tables))
        && disk == (if isOpen then old(disk) + Written(old(tables), id, file, thumbnail) else old(disk))
      ensures IsInMemory() ==> disk == {}
      ensures filePath in files && filePath != "" && isOpen
              && IsFullObject(IdentityOf(files[filePath])) && IdentityOf(files[filePath]).instance !in old(tables).images ==>
        var id := IdentityOf(files[filePath]);
        && FileForInstance(id.instance) ==
             (if storeFile && !IsInMemory() then StoragePath(DatabaseDirectory(), InsertLocation(old(tables), id)) else filePath)
        && FileExistsAndUpToDate(FileForInstance(id.instance), false)
        && FileExistsAndUpToDate(filePath, false)
    {
      if filePath != "" && filePath in files {
        var id := IdentityOf(files[filePath]);
        if filePath != "" && isOpen && IsFullObject(id) && id.instance !in tables.images {
          InsertNewObject(tables, DatabaseDirectory(), id, FileFor(IsInMemory(), storeFile, filePath), ThumbnailFor(generateThumbnail));
        }
        Ingest(files[filePath], filePath, storeFile, generateThumbnail);
      }
    }

    // -------------------------------------------------------------- removal

    /**
     * removeSeries: the series and its images go, with their files and
     * thumbnails; false when the series is not in an open database.
     */
    method RemoveSeries(series: string) returns (ok: bool)
      requires Valid()
      modifies this`tables, this`disk
      ensures Valid()
      ensures ok == (isOpen && series in old(tables).series)
      ensures tables == (if isOpen then Catalog.RemoveSeries(old(tables), series) else old(tables))
      ensures disk == (if isOpen then old(disk) - EntriesOf(old(tables), ImagesForSeries(old(tables), series)) else old(disk))
      ensures forall study :: series !in SeriesForStudy(study)
      ensures FilesForSeries(series) == {}
      ensures forall i | i in ImagesForSeries(old(tables), series) :: FileForInstance(i) == ""
    {
      ok := isOpen && series in tables.series;
      if isOpen {
        RemoveSeriesCascade(tables, DatabaseDirectory(), series);
        disk := disk - EntriesOf(tables, ImagesForSeries(tables, series));
        tables := Catalog.RemoveSeries(tables, series);
      }
    }

    /** removeStudy: the study, its series and their images go, with their files and thumbnails. */
    method RemoveStudy(study: string) returns (ok: bool)
      requires Valid()
      modifies this`tables, this`disk
      ensures Valid()
      ensures ok == (isOpen && study in old(tables).studies)
      ensures tables == (if isOpen then Catalog.RemoveStudy(old(tables), study) else old(tables))
      ensures disk == (if isOpen then old(disk) - EntriesOf(old(tables), ImagesForStudy(old(tables), study)) else old(disk))
      ensures forall patient :: study !in StudiesForPatient(patient)
      ensures SeriesForStudy(study) == {}
      ensures isOpen ==> forall e | e in disk :: e.loc.study != study
    {
      ok := isOpen && study in tables.studies;
      if isOpen {
        RemoveStudyCascade(tables, DatabaseDirectory(), study);
        disk := disk - EntriesOf(tables, ImagesForStudy(tables, study));
        tables := Catalog.RemoveStudy(tables, study);
      }
    }

    /** removePatient: the patient and everything below it go, with their files and thumbnails. */
    method RemovePatient(patient: string) returns (ok: bool)
      requires Valid()
      modifies this`tables, this`disk
      ensures Valid()
      ensures ok == (isOpen && patient in old(tables).patients)
      ensures tables == (if isOpen then Catalog.RemovePatient(old(tables), patient) else old(tables))
      ensures disk == (if isOpen then old(disk) - EntriesOf(old(tables), ImagesForPatient(old(tables), patient)) else old(disk))
      ensures patient !in Patients()
      ensures StudiesForPatient(patient) == {}
    {
      ok := isOpen && patient in tables.patients;
      if isOpen {
        RemovePatientCascade(tables, DatabaseDirectory(), patient);
        disk := disk - EntriesOf(tables, ImagesForPatient(tables, patient));
        tables := Catalog.RemovePatient(tables, patient);
      }
    }

    /**
     * cleanup: drops the image rows whose file is not among `present` (the
     * files that still exist), together with their thumbnails.
     */
    method Cleanup(present: set<string>) returns (ok: bool)
      requires Valid()
      modifies this`tables, this`disk
      ensures Valid()
      ensures ok == isOpen
      ensures tables == (if isOpen then Catalog.Cleanup(old(tables), DatabaseDirectory(), present) else old(tables))
      ensures disk == (if isOpen then old(disk) - EntriesOf(old(tables), old(tables).images.Keys - tables.images.Keys) else old(disk))
      ensures isOpen ==> forall i | i in tables.images :: FileForInstance(i) == "" || FileForInstance(i) in present
    {
      ok := isOpen;
      if isOpen {
        var cleaned := Catalog.Cleanup(tables, DatabaseDirectory(), present);
        CleanupProperties(tables, DatabaseDirectory(), present);
        disk := disk - EntriesOf(tables, tables.images.Keys - cleaned.images.Keys);
        tables := cleaned;
      }
    }

    // --------------------------------------------------------- header cache

    /**
     * loadFileHeader: the current header becomes the elements of `fileName`
     * (none when it cannot be read); nothing of the previous header remains.
     */
    method LoadFileHeader(fileName: string, files: Files)
      modifies this`header
      ensures header == ReadFile(files, fileName)
      ensures forall t :: t in ReadFile(files, fileName) <==> FormatTag(t) in HeaderKeys()
      ensures forall t :: HeaderValue(FormatTag(t)) == ElementValue(ReadFile(files, fileName), t)
    {
      header := ReadFile(files, fileName);
      HeaderKeysExact(header);
      forall t ensures HeaderValue(FormatTag(t)) == ElementValue(header, t) {
        HeaderValueOfTag(header, t);
      }
    }

    /** loadInstanceHeader: loads the header of the file the database has for the instance. */
    method LoadInstanceHeader(instance: string, files: Files)
      requires Valid()
      modifies this`header
      ensures header == ReadFile(files, FileForInstance(instance))
      ensures forall t :: t in header <==> FormatTag(t) in HeaderKeys()
    {
      LoadFileHeader(FileForInstance(instance), files);
    }
  }
}
