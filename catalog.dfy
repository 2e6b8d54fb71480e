/**
 * The hierarchy store: the patient, study, series and image tables of the
 * database, following the patient-root information model of section C.6.1
 * of DICOM PS3.4 (patient -> study -> series -> instance).
 *
 * The tables are maps from a UID to its parent's UID; an image row also
 * records which file it references and whether it has a thumbnail. The
 * functions here are the read-only queries and the table updates that the
 * database handle performs; the lemmas state what the handle promises about
 * them.
 */
module Catalog {
  import opened Tags
  import opened Header
  import opened Paths

  /** The identifiers a dataset carries; "" stands for an absent element. */
  datatype Identity = Identity(patient: string, study: string, series: string, instance: string)

  function IdentityOf(ds: Dataset): Identity {
    Identity(ElementValue(ds, PatientId), ElementValue(ds, StudyInstanceUid),
             ElementValue(ds, SeriesInstanceUid), ElementValue(ds, SopInstanceUid))
  }

  /** A complete object: all four levels are identified. */
  predicate IsFullObject(id: Identity) {
    id.patient != "" && id.study != "" && id.series != "" && id.instance != ""
  }

  /**
   * The file an image row references: none, a copy stored in the "dicom"
   * tree (remembering the file it was copied from, "" for a dataset), or the
   * file it was read from.
   */
  datatype FileRef = NoFile | Stored(origin: string) | External(path: string)

  /** The file an image row's object was read from; "" when it came from a dataset. */
  function SourceOf(f: FileRef): string {
    match f
    case NoFile => ""
    case Stored(origin) => origin
    case External(path) => path
  }

  datatype Image = Image(series: string, file: FileRef, thumbnail: bool)

  datatype Tables = Tables(
    patients: set<string>,
    studies: map<string, string>,   // study UID -> patient ID
    series: map<string, string>,    // series UID -> study UID
    images: map<string, Image>)     // SOP instance UID -> row

  const Empty := Tables({}, map[], map[], map[])

  /** Bottom-up consistency: every row's parent row exists. */
  predicate Consistent(c: Tables) {
    && (forall s | s in c.studies :: c.studies[s] in c.patients)
    && (forall s | s in c.series :: c.series[s] in c.studies)
    && (forall i | i in c.images :: c.images[i].series in c.series)
  }

  // ---------------------------------------------------------------- queries

  /** patients */
  function Patients(c: Tables): set<string> {
    c.patients
  }

  /** studiesForPatient */
  function StudiesForPatient(c: Tables, patient: string): set<string> {
    set s | s in c.studies && c.studies[s] == patient
  }

  /** seriesForStudy */
  function SeriesForStudy(c: Tables, study: string): set<string> {
    set s | s in c.series && c.series[s] == study
  }

  function ImagesForSeries(c: Tables, series: string): set<string> {
    set i | i in c.images && c.images[i].series == series
  }

  /** The series of every study of a patient. */
  function SeriesForPatient(c: Tables, patient: string): set<string> {
    set s | s in c.series && c.series[s] in c.studies && c.studies[c.series[s]] == patient
  }

  /** Where an image's files go: under its series, under that series' study. */
  function LocationOf(c: Tables, i: string): Location
    requires Consistent(c) && i in c.images
  {
    var se := c.images[i].series;
    Location(c.series[se], se, i)
  }

  /** The path an image row references, "" when it references none. */
  function FilePath(c: Tables, dir: string, i: string): string
    requires Consistent(c) && i in c.images
  {
    match c.images[i].file
    case NoFile => ""
    case Stored(_) => StoragePath(dir, LocationOf(c, i))
    case External(p) => p
  }

  /** filesForSeries */
  function FilesForSeries(c: Tables, dir: string, series: string): set<string>
    requires Consistent(c)
  {
    set i | i in c.images && c.images[i].series == series && FilePath(c, dir, i) != "" :: FilePath(c, dir, i)
  }

  /** fileForInstance: "" for an unknown UID. */
  function FileForInstance(c: Tables, dir: string, instance: string): string
    requires Consistent(c)
  {
    if instance in c.images then FilePath(c, dir, instance) else ""
  }

  /** Every file some image row references. */
  function AllFiles(c: Tables, dir: string): set<string>
    requires Consistent(c)
  {
    set i | i in c.images && FilePath(c, dir, i) != "" :: FilePath(c, dir, i)
  }

  /** Every non-empty file some image row's object was read from. */
  function SourceFiles(c: Tables): set<string> {
    set i | i in c.images && SourceOf(c.images[i].file) != "" :: SourceOf(c.images[i].file)
  }

  /** The files the database keeps under its directory for the images `ids`. */
  function EntriesOf(c: Tables, ids: set<string>): set<DiskEntry>
    requires Consistent(c)
  {
    (set i | i in ids && i in c.images && c.images[i].file.Stored? :: DicomFile(LocationOf(c, i)))
    + (set i | i in ids && i in c.images && c.images[i].thumbnail :: ThumbnailFile(LocationOf(c, i)))
  }

  /** Every object file and thumbnail the tables account for. */
  function Entries(c: Tables): set<DiskEntry>
    requires Consistent(c)
  {
    EntriesOf(c, c.images.Keys)
  }

  /** No image row has a copy in the "dicom" tree or a thumbnail. */
  predicate NoManagedFiles(c: Tables) {
    forall i | i in c.images :: !c.images[i].file.Stored? && !c.images[i].thumbnail
  }

  // --------------------------------------------------------------- updates

  /**
   * What an image row will reference: a copy in the "dicom" tree when the
   * caller asks for storage and the database is not in memory (in memory
   * mode the flag is ignored), otherwise the file the object was read from,
   * if any.
   */
  function FileFor(inMemory: bool, storeFile: bool, origin: string): (f: FileRef)
    ensures f.Stored? <==> storeFile && !inMemory
    ensures SourceOf(f) == origin
    ensures f.NoFile? <==> origin == "" && !f.Stored?
  {
    if storeFile && !inMemory then Stored(origin) else if origin != "" then External(origin) else NoFile
  }

  /**
   * insert: add the levels the dataset carries, top-down, as long as each is
   * identified; a level whose UID is present is left as it is. A complete
   * object whose instance is already present changes nothing.
   */
  function Insert(c: Tables, id: Identity, file: FileRef, thumbnail: bool): Tables {
    if id.patient == "" || (IsFullObject(id) && id.instance in c.images) then c
    else
      var c1 := c.(patients := c.patients + {id.patient});
      if id.study == "" then c1
      else
        var c2 := if id.study in c1.studies then c1 else c1.(studies := c1.studies[id.study := id.patient]);
        if id.series == "" then c2
        else
          var c3 := if id.series in c2.series then c2 else c2.(series := c2.series[id.series := id.study]);
          if id.instance == "" then c3
          else c3.(images := c3.images[id.instance := Image(id.series, file, thumbnail)])
  }

  /** Where the insert places a new complete object: under the study its series belongs to. */
  function InsertLocation(c: Tables, id: Identity): Location {
    Location(if id.series in c.series then c.series[id.series] else id.study, id.series, id.instance)
  }

  /** The object file and thumbnail an insert writes before it commits the rows. */
  function Written(c: Tables, id: Identity, file: FileRef, thumbnail: bool): set<DiskEntry> {
    if IsFullObject(id) && id.instance !in c.images then
      (if file.Stored? then {DicomFile(InsertLocation(c, id))} else {})
      + (if thumbnail then {ThumbnailFile(InsertLocation(c, id))} else {})
    else {}
  }

  /** removeSeries: the series row and all its image rows. */
  function RemoveSeries(c: Tables, series: string): Tables {
    c.(series := c.series - {series},
       images := map i | i in c.images && c.images[i].series != series :: c.images[i])
  }

  /** removeStudy: the study row, its series rows and their image rows. */
  function RemoveStudy(c: Tables, study: string): Tables {
    var gone := SeriesForStudy(c, study);
    c.(studies := c.studies - {study},
       series := map s | s in c.series && c.series[s] != study :: c.series[s],
       images := map i | i in c.images && c.images[i].series !in gone :: c.images[i])
  }

  /** removePatient: the patient row and every row below it. */
  function RemovePatient(c: Tables, patient: string): Tables {
    var gone := SeriesForPatient(c, patient);
    c.(patients := c.patients - {patient},
       studies := map s | s in c.studies && c.studies[s] != patient :: c.studies[s],
       series := map s | s in c.series && s !in gone :: c.series[s],
       images := map i | i in c.images && c.images[i].series !in gone :: c.images[i])
  }

  /** cleanup: drop the image rows whose referenced file no longer exists. */
  function Cleanup(c: Tables, dir: string, present: set<string>): Tables
    requires Consistent(c)
  {
    c.(images := map i | i in c.images && (FilePath(c, dir, i) == "" || FilePath(c, dir, i) in present) :: c.images[i])
  }

  // ------------------------------------------------------ insert properties

  /** Inserting keeps the hierarchy consistent. */
  lemma InsertConsistent(c: Tables, id: Identity, file: FileRef, thumbnail: bool)
    requires Consistent(c)
    ensures Consistent(Insert(c, id, file, thumbnail))
  {
  }

  /**
   * Inserting the same dataset twice leaves the state of inserting it once:
   * the second insert adds no row and writes no file.
   */
  lemma InsertIdempotent(c: Tables, id: Identity, file: FileRef, thumbnail: bool)
    ensures Insert(Insert(c, id, file, thumbnail), id, file, thumbnail) == Insert(c, id, file, thumbnail)
    ensures Written(Insert(c, id, file, thumbnail), id, file, thumbnail) == {}
  {
    var c' := Insert(c, id, file, thumbnail);
    if id.patient != "" && !(IsFullObject(id) && id.instance in c.images) {
      assert c'.patients + {id.patient} == c'.patients;
    }
  }

  /** A complete object whose instance is already present is not inserted again, and nothing is written. */
  lemma InsertExistingInstance(c: Tables, id: Identity, file: FileRef, thumbnail: bool)
    requires IsFullObject(id) && id.instance in c.images
    ensures Insert(c, id, file, thumbnail) == c
    ensures Written(c, id, file, thumbnail) == {}
  {
  }

  /**
   * Insert only adds: every row present before is still there with the same
   * parent, and the only rows added are the dataset's own levels.
   */
  lemma InsertOnlyAdds(c: Tables, id: Identity, file: FileRef, thumbnail: bool)
    ensures var c' := Insert(c, id, file, thumbnail);
      && c.patients <= c'.patients <= c.patients + {id.patient}
      && (forall s | s in c.studies :: s in c'.studies && c'.studies[s] == c.studies[s])
      && (forall s | s in c.series :: s in c'.series && c'.series[s] == c.series[s])
      && (forall i | i in c.images :: i in c'.images && c'.images[i] == c.images[i])
      && c'.studies.Keys <= c.studies.Keys + {id.study}
      && c'.series.Keys <= c.series.Keys + {id.series}
      && c'.images.Keys <= c.images.Keys + {id.instance}
  {
  }

  /**
   * A partial dataset is accepted: every level it identifies (from the
   * patient down, stopping at the first missing one) is present afterwards,
   * a new row hangs under the dataset's parent, and nothing but a complete
   * object adds an image row or a file.
   */
  lemma InsertCreatesCarriedLevels(c: Tables, id: Identity, file: FileRef, thumbnail: bool)
    requires !(IsFullObject(id) && id.instance in c.images)
    ensures var c' := Insert(c, id, file, thumbnail);
      && (id.patient != "" ==> id.patient in c'.patients)
      && (id.patient != "" && id.study != "" ==> id.study in c'.studies)
      && (id.patient != "" && id.study != "" && id.series != "" ==> id.series in c'.series)
      && (IsFullObject(id) ==> id.instance in c'.images)
      && (id.patient != "" && id.study != "" && id.study !in c.studies ==> c'.studies[id.study] == id.patient)
      && (id.patient != "" && id.study != "" && id.series != "" && id.series !in c.series ==> c'.series[id.series] == id.study)
      && (!IsFullObject(id) ==> c'.images == c.images && Written(c, id, file, thumbnail) == {})
  {
  }

  /**
   * A new complete object gets a row under its series with the file and
   * thumbnail decided for it, placed at the location the insert wrote to.
   */
  lemma InsertNewObject(c: Tables, dir: string, id: Identity, file: FileRef, thumbnail: bool)
    requires Consistent(c) && IsFullObject(id) && id.instance !in c.images
    ensures var c' := Insert(c, id, file, thumbnail);
      && Consistent(c')
      && c'.images[id.instance] == Image(id.series, file, thumbnail)
      && LocationOf(c', id.instance) == InsertLocation(c, id)
      && FileForInstance(c', dir, id.instance) ==
           match file
           case NoFile => ""
           case Stored(_) => StoragePath(dir, InsertLocation(c, id))
           case External(p) => p
  {
  }

  /** An insert that neither stores the object nor makes a thumbnail puts no file in either tree. */
  lemma InsertWithoutFiles(c: Tables, id: Identity, file: FileRef, thumbnail: bool)
    requires NoManagedFiles(c) && !file.Stored? && !thumbnail
    ensures NoManagedFiles(Insert(c, id, file, thumbnail))
    ensures Written(c, id, file, thumbnail) == {}
  {
  }

  /** The files under the database directory after an insert: those before, plus what it wrote. */
  lemma InsertEntries(c: Tables, id: Identity, file: FileRef, thumbnail: bool)
    requires Consistent(c)
    ensures Consistent(Insert(c, id, file, thumbnail))
    ensures Entries(Insert(c, id, file, thumbnail)) == Entries(c) + Written(c, id, file, thumbnail)
  {
    var c' := Insert(c, id, file, thumbnail);
    InsertConsistent(c, id, file, thumbnail);
    InsertOnlyAdds(c, id, file, thumbnail);
    EntriesOfAgree(c, c', c.images.Keys);
    if IsFullObject(id) && id.instance !in c.images {
      var i := id.instance;
      InsertNewObject(c, "", id, file, thumbnail);
      assert c'.images.Keys == c.images.Keys + {i};
      EntriesOfUnion(c', c.images.Keys, {i});
      EntriesOfOne(c', i);
      assert EntriesOf(c', {i}) == Written(c, id, file, thumbnail);
    } else {
      assert c'.images.Keys == c.images.Keys;
      assert Written(c, id, file, thumbnail) == {};
    }
  }

  // ----------------------------------------------------- entries (helpers)

  lemma EntriesOfOne(c: Tables, i: string)
    requires Consistent(c) && i in c.images
    ensures EntriesOf(c, {i}) ==
      (if c.images[i].file.Stored? then {DicomFile(LocationOf(c, i))} else {})
      + (if c.images[i].thumbnail then {ThumbnailFile(LocationOf(c, i))} else {})
  {
  }

  lemma EntriesOfUnion(c: Tables, a: set<string>, b: set<string>)
    requires Consistent(c)
    ensures EntriesOf(c, a + b) == EntriesOf(c, a) + EntriesOf(c, b)
  {
  }

  /** Entries of disjoint sets of images are disjoint: an entry names its image. */
  lemma EntriesOfDisjoint(c: Tables, a: set<string>, b: set<string>)
    requires Consistent(c) && a !! b
    ensures EntriesOf(c, a) !! EntriesOf(c, b)
  {
    forall e | e in EntriesOf(c, a) ensures e.loc.instance in a { }
    forall e | e in EntriesOf(c, b) ensures e.loc.instance in b { }
  }

  /** Two catalogs that agree on a set of images and on those images' series agree on their entries. */
  lemma EntriesOfAgree(c: Tables, c': Tables, ids: set<string>)
    requires Consistent(c) && Consistent(c')
    requires forall i | i in ids && i in c.images ::
      i in c'.images && c'.images[i] == c.images[i] && c'.series[c.images[i].series] == c.series[c.images[i].series]
    requires forall i | i in ids && i in c'.images :: i in c.images
    ensures EntriesOf(c, ids) == EntriesOf(c', ids)
  {
    forall i | i in ids && i in c.images ensures LocationOf(c, i) == LocationOf(c', i) { }
  }

  /** Removing image rows removes exactly their entries. */
  lemma EntriesAfterRemoval(c: Tables, c': Tables)
    requires Consistent(c) && Consistent(c')
    requires c'.images.Keys <= c.images.Keys
    requires forall i | i in c'.images ::
      c'.images[i] == c.images[i] && c'.series[c.images[i].series] == c.series[c.images[i].series]
    ensures Entries(c') == Entries(c) - EntriesOf(c, c.images.Keys - c'.images.Keys)
  {
    var kept, gone := c'.images.Keys, c.images.Keys - c'.images.Keys;
    assert c.images.Keys == kept + gone;
    EntriesOfUnion(c, kept, gone);
    EntriesOfDisjoint(c, kept, gone);
    EntriesOfAgree(c, c', kept);
  }

  /** `c'` keeps some of `c`'s rows, each with its parent. */
  predicate SubCatalog(c': Tables, c: Tables) {
    && c'.patients <= c.patients
    && (forall s | s in c'.studies :: s in c.studies && c'.studies[s] == c.studies[s])
    && (forall s | s in c'.series :: s in c.series && c'.series[s] == c.series[s])
    && (forall i | i in c'.images :: i in c.images && c'.images[i] == c.images[i])
  }

  /** An image that survives a removal keeps its location and its file. */
  lemma SubCatalogKeepsFiles(c': Tables, c: Tables, dir: string)
    requires Consistent(c) && Consistent(c') && SubCatalog(c', c)
    ensures forall i | i in c'.images :: LocationOf(c', i) == LocationOf(c, i) && FilePath(c', dir, i) == FilePath(c, dir, i)
    ensures Entries(c') == Entries(c) - EntriesOf(c, c.images.Keys - c'.images.Keys)
  {
    EntriesAfterRemoval(c, c');
  }

  /** A series that keeps all its images keeps its file list. */
  lemma SubCatalogKeepsSeriesFiles(c': Tables, c: Tables, dir: string, se: string)
    requires Consistent(c) && Consistent(c') && SubCatalog(c', c)
    requires ImagesForSeries(c', se) == ImagesForSeries(c, se)
    ensures FilesForSeries(c', dir, se) == FilesForSeries(c, dir, se)
  {
    SubCatalogKeepsFiles(c', c, dir);
    forall f | f in FilesForSeries(c, dir, se) ensures f in FilesForSeries(c', dir, se) {
      var i :| i in c.images && c.images[i].series == se && FilePath(c, dir, i) != "" && FilePath(c, dir, i) == f;
      assert i in ImagesForSeries(c, se);
    }
  }

  /** A series with no images has no files. */
  lemma NoImagesNoFiles(c: Tables, dir: string, se: string)
    requires Consistent(c) && ImagesForSeries(c, se) == {}
    ensures FilesForSeries(c, dir, se) == {}
  {
    assert forall i | i in c.images :: c.images[i].series != se by {
      forall i | i in c.images ensures c.images[i].series != se {
        assert i !in ImagesForSeries(c, se);
      }
    }
  }

  // ------------------------------------------------------- query properties

  /**
   * Every image is reachable from the top: its patient is listed, its study
   * is among the patient's studies, its series among the study's series, and
   * its file among the series' files.
   */
  lemma HierarchyIntegrity(c: Tables, dir: string, i: string)
    requires Consistent(c) && i in c.images
    ensures var se := c.images[i].series;
      var st := c.series[se];
      var p := c.studies[st];
      && p in Patients(c) && st in StudiesForPatient(c, p) && se in SeriesForStudy(c, st)
      && i in ImagesForSeries(c, se)
      && (FileForInstance(c, dir, i) != "" ==> FileForInstance(c, dir, i) in FilesForSeries(c, dir, se))
  {
  }

  // --------------------------------------------------- removal properties

  /**
   * removeSeries: the series is gone from every study's list, it has no
   * images or files left, its former instances have no file, and exactly
   * its object files and thumbnails leave the database directory.
   */
  lemma RemoveSeriesCascade(c: Tables, dir: string, se: string)
    requires Consistent(c)
    ensures var c' := RemoveSeries(c, se);
      && Consistent(c') && SubCatalog(c', c)
      && (forall st :: se !in SeriesForStudy(c', st))
      && ImagesForSeries(c', se) == {}
      && FilesForSeries(c', dir, se) == {}
      && (forall i | i in ImagesForSeries(c, se) :: FileForInstance(c', dir, i) == "")
      && Entries(c') == Entries(c) - EntriesOf(c, ImagesForSeries(c, se))
      && (forall e | e in Entries(c') :: e.loc.series != se)
  {
    var c' := RemoveSeries(c, se);
    assert c.images.Keys - c'.images.Keys == ImagesForSeries(c, se);
    SubCatalogKeepsFiles(c', c, dir);
    NoImagesNoFiles(c', dir, se);
  }

  /** removeSeries affects no other series: other rows, lists and files are as before. */
  lemma RemoveSeriesFrame(c: Tables, dir: string, se: string)
    requires Consistent(c)
    ensures var c' := RemoveSeries(c, se);
      && Consistent(c')
      && c'.patients == c.patients && c'.studies == c.studies
      && (forall st :: SeriesForStudy(c', st) == SeriesForStudy(c, st) - {se})
      && (forall other | other != se :: ImagesForSeries(c', other) == ImagesForSeries(c, other))
      && (forall other | other != se :: FilesForSeries(c', dir, other) == FilesForSeries(c, dir, other))
      && (forall i | i in c.images && c.images[i].series != se :: FileForInstance(c', dir, i) == FileForInstance(c, dir, i))
  {
    var c' := RemoveSeries(c, se);
    SubCatalogKeepsFiles(c', c, dir);
    forall other | other != se ensures FilesForSeries(c', dir, other) == FilesForSeries(c, dir, other) {
      SubCatalogKeepsSeriesFiles(c', c, dir, other);
    }
  }

  /** The images of a study's series. */
  function ImagesForStudy(c: Tables, study: string): set<string> {
    set i | i in c.images && c.images[i].series in SeriesForStudy(c, study)
  }

  /**
   * removeStudy: the study is gone from every patient's list, none of its
   * series, images or files remain, and exactly their object files and
   * thumbnails leave the database directory.
   */
  lemma RemoveStudyCascade(c: Tables, dir: string, st: string)
    requires Consistent(c)
    ensures var c' := RemoveStudy(c, st);
      && Consistent(c') && SubCatalog(c', c)
      && (forall p :: st !in StudiesForPatient(c', p))
      && SeriesForStudy(c', st) == {}
      && (forall se | se in SeriesForStudy(c, st) :: se !in c'.series && FilesForSeries(c', dir, se) == {})
      && (forall i | i in ImagesForStudy(c, st) :: FileForInstance(c', dir, i) == "")
      && Entries(c') == Entries(c) - EntriesOf(c, ImagesForStudy(c, st))
      && (forall e | e in Entries(c') :: e.loc.study != st)
  {
    var c' := RemoveStudy(c, st);
    assert c.images.Keys - c'.images.Keys == ImagesForStudy(c, st);
    SubCatalogKeepsFiles(c', c, dir);
    forall se | se in SeriesForStudy(c, st) ensures FilesForSeries(c', dir, se) == {} {
      NoImagesNoFiles(c', dir, se);
    }
  }

  /** removeStudy affects no other study. */
  lemma RemoveStudyFrame(c: Tables, dir: string, st: string)
    requires Consistent(c)
    ensures var c' := RemoveStudy(c, st);
      && Consistent(c')
      && c'.patients == c.patients
      && (forall p :: StudiesForPatient(c', p) == StudiesForPatient(c, p) - {st})
      && (forall other | other != st :: SeriesForStudy(c', other) == SeriesForStudy(c, other))
      && (forall se | se !in SeriesForStudy(c, st) :: ImagesForSeries(c', se) == ImagesForSeries(c, se))
      && (forall se | se !in SeriesForStudy(c, st) :: FilesForSeries(c', dir, se) == FilesForSeries(c, dir, se))
  {
    var c' := RemoveStudy(c, st);
    SubCatalogKeepsFiles(c', c, dir);
    forall se | se !in SeriesForStudy(c, st) ensures FilesForSeries(c', dir, se) == FilesForSeries(c, dir, se) {
      SubCatalogKeepsSeriesFiles(c', c, dir, se);
    }
  }

  /**
   * After removeStudy no object file or thumbnail lies under the study's
   * directory in either tree, as long as study UIDs are single path
   * components (DICOM UIDs are digits and dots).
   */
  lemma RemoveStudyLeavesStudyDirectoryEmpty(c: Tables, dir: string, st: string)
    requires Consistent(c) && NoSlash(st)
    requires forall s | s in c.studies :: NoSlash(s)
    ensures forall e | e in Entries(RemoveStudy(c, st)) ::
      !(StudyDirectory(dir, EntryTree(e), st) + "/" <= EntryPath(dir, e))
  {
    var c' := RemoveStudy(c, st);
    RemoveStudyCascade(c, dir, st);
    forall e | e in Entries(c') ensures !(StudyDirectory(dir, EntryTree(e), st) + "/" <= EntryPath(dir, e)) {
      assert e.loc.study in c.studies;
      UnderStudyDirectory(dir, EntryTree(e), st, e.loc);
    }
  }

  /** The images below a patient. */
  function ImagesForPatient(c: Tables, patient: string): set<string> {
    set i | i in c.images && c.images[i].series in SeriesForPatient(c, patient)
  }

  /**
   * removePatient: the patient is no longer listed, none of its studies,
   * series, images or files remain, and exactly their object files and
   * thumbnails leave the database directory.
   */
  lemma RemovePatientCascade(c: Tables, dir: string, p: string)
    requires Consistent(c)
    ensures var c' := RemovePatient(c, p);
      && Consistent(c') && SubCatalog(c', c)
      && p !in Patients(c')
      && StudiesForPatient(c', p) == {}
      && (forall st | st in StudiesForPatient(c, p) :: st !in c'.studies && SeriesForStudy(c', st) == {})
      && (forall se | se in SeriesForPatient(c, p) :: se !in c'.series && FilesForSeries(c', dir, se) == {})
      && (forall i | i in ImagesForPatient(c, p) :: FileForInstance(c', dir, i) == "")
      && Entries(c') == Entries(c) - EntriesOf(c, ImagesForPatient(c, p))
  {
    var c' := RemovePatient(c, p);
    assert c.images.Keys - c'.images.Keys == ImagesForPatient(c, p);
    SubCatalogKeepsFiles(c', c, dir);
    forall se | se in SeriesForPatient(c, p) ensures FilesForSeries(c', dir, se) == {} {
      NoImagesNoFiles(c', dir, se);
    }
  }

  /** removePatient affects no other patient. */
  lemma RemovePatientFrame(c: Tables, dir: string, p: string)
    requires Consistent(c)
    ensures var c' := RemovePatient(c, p);
      && Consistent(c')
      && c'.patients == c.patients - {p}
      && (forall q | q != p :: StudiesForPatient(c', q) == StudiesForPatient(c, q))
      && (forall st | st !in StudiesForPatient(c, p) :: SeriesForStudy(c', st) == SeriesForStudy(c, st))
      && (forall se | se !in SeriesForPatient(c, p) :: ImagesForSeries(c', se) == ImagesForSeries(c, se))
      && (forall se | se !in SeriesForPatient(c, p) :: FilesForSeries(c', dir, se) == FilesForSeries(c, dir, se))
  {
    var c' := RemovePatient(c, p);
    SubCatalogKeepsFiles(c', c, dir);
    forall se | se !in SeriesForPatient(c, p) ensures FilesForSeries(c', dir, se) == FilesForSeries(c, dir, se) {
      SubCatalogKeepsSeriesFiles(c', c, dir, se);
    }
  }

  // --------------------------------------------------- cleanup properties

  /**
   * cleanup leaves no row referencing a missing file, keeps every row whose
   * file is present (or that references none), touches no other table, and
   * removes exactly the dropped rows' object files and thumbnails.
   */
  lemma CleanupProperties(c: Tables, dir: string, present: set<string>)
    requires Consistent(c)
    ensures var c' := Cleanup(c, dir, present);
      && Consistent(c') && SubCatalog(c', c)
      && c'.patients == c.patients && c'.studies == c.studies && c'.series == c.series
      && (forall i | i in c'.images :: FilePath(c', dir, i) == "" || FilePath(c', dir, i) in present)
      && (forall i | i in c.images && (FilePath(c, dir, i) == "" || FilePath(c, dir, i) in present) :: i in c'.images)
      && Entries(c') == Entries(c) - EntriesOf(c, c.images.Keys - c'.images.Keys)
  {
    SubCatalogKeepsFiles(Cleanup(c, dir, present), c, dir);
  }
}
