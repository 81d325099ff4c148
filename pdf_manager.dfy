/**
 * The PDF manager server (basic-pdf-manager/server.js): a fixed folder table, the
 * in-memory document list `pdfFiles` and its mirror in the `pdf_documents` table.
 *
 * Requests arrive with the session's user name, or `None` when nobody is logged in.
 * Every call into the database reports only whether it succeeded; a failure there is
 * logged by the server and never undoes a change to `pdfFiles`.
 */
module PdfManager {

  import opened Wrappers
  import opened JsText
  import opened UploadNaming

  // ---------------------------------------------------------------------------
  // Folders

  datatype Folder = Folder(
    id: int,
    name: string,
    description: string,
    parentId: Option<int>,
    createdAt: string,
    updatedAt: string)

  /** The folder table seeded at start-up: one root folder and two children. */
  const Folders: seq<Folder> := [
    Folder(1, "Huvudmapp", "Standardmapp för PDF-dokument", None,
           "2025-05-15T10:00:00Z", "2025-05-15T10:00:00Z"),
    Folder(2, "Projekt A", "PDF:er för Projekt A", Some(1),
           "2025-05-15T10:05:00Z", "2025-05-15T10:05:00Z"),
    Folder(3, "Projekt B", "PDF:er för Projekt B", Some(1),
           "2025-05-15T10:10:00Z", "2025-05-15T10:10:00Z")
  ]

  /** `folders.find(f => f.id === folderId)` over a list of folders; `NaN` equals nothing. */
  function FindFolderIn(folders: seq<Folder>, folderId: Parsed): (r: Option<Folder>)
    ensures r.Some? <==> folderId.Num? && exists f :: f in folders && f.id == folderId.value
    ensures r.Some? ==> r.value in folders && r.value.id == folderId.value
  {
    if folderId.NaN? || folders == [] then None
    else if folders[0].id == folderId.value then Some(folders[0])
    else FindFolderIn(folders[1..], folderId)
  }

  /** Exactly the ids 1, 2 and 3 name a folder. */
  lemma FolderIds(folderId: Parsed)
    ensures FindFolderIn(Folders, folderId).Some? <==> folderId.Num? && 1 <= folderId.value <= 3
  {
    if folderId.Num? && 1 <= folderId.value <= 3 {
      assert Folders[folderId.value - 1] in Folders;
    }
  }

  // ---------------------------------------------------------------------------
  // Documents

  datatype Document = Document(
    id: string,
    filename: string,
    description: string,
    originalFilename: string,
    storedFilename: string,
    fileUrl: string,
    size: nat,
    uploadedBy: string,
    uploadedAt: string,
    folderId: int,
    versionNumber: int)

  /** What the upload middleware hands to the handler: the stored file (`req.file`). */
  datatype StoredFile = StoredFile(originalName: string, storedName: string, size: nat)

  /** The text fields of the multipart upload form; `None` is a field that was not sent. */
  datatype UploadForm = UploadForm(title: Option<string>, description: Option<string>, folderId: Option<string>)

  /** `req.body.folderId ? parseInt(req.body.folderId) : 1`. */
  function ChosenFolderId(field: Option<string>): (r: Parsed)
    ensures !Given(field) ==> r == Num(1)
    ensures Given(field) ==> r == ParseInt(field.value)
  {
    if Given(field) then ParseInt(field.value) else Num(1)
  }

  /** A folder id written out in decimal is the folder chosen. */
  lemma ChosenFolderText(n: int)
    ensures ChosenFolderId(Some(IntText(n))) == Num(n)
  {
    ParseIntText(n);
  }

  /** The title of a new document: the form's title, else the original name without its first `.pdf`. */
  function DocumentTitle(form: UploadForm, file: StoredFile): (r: string)
    ensures Given(form.title) ==> r == form.title.value
    ensures !Given(form.title) && (forall i: nat :: !OccursAt(file.originalName, ".pdf", i)) ==> r == file.originalName
    ensures !Given(form.title) ==> |r| == |file.originalName| || |r| == |file.originalName| - 4
  {
    if Given(form.title) then form.title.value else RemoveFirst(file.originalName, ".pdf")
  }

  /** A name ending in `.pdf` and holding it nowhere else loses exactly that ending. */
  lemma TitleDropsExtension(base: string)
    requires forall i: nat :: i < |base| ==> !OccursAt(base + ".pdf", ".pdf", i)
    ensures DocumentTitle(UploadForm(None, None, None), StoredFile(base + ".pdf", "", 0)) == base
  {
    var s := base + ".pdf";
    assert OccursAt(s, ".pdf", |base|) by { assert s[|base|..|base| + 4] == ".pdf"; }
    RemoveFirstAt(s, ".pdf", |base|);
    assert s[..|base|] == base;
  }

  /**
   * The id of an uploaded document: `'pdf_' + Date.now() + '_' + Math.floor(Math.random() * 10000)`,
   * with the clock reading `stamp` and the drawn number `draw` as parameters.
   */
  function UploadId(stamp: nat, draw: nat): (r: string)
    ensures |r| > 4 && r[..4] == "pdf_"
  {
    "pdf_" + NatText(stamp) + "_" + NatText(draw)
  }

  /** Two uploads get the same id only when both the clock reading and the drawn number agree. */
  lemma UploadIdInjective(stamp: nat, draw: nat, stamp2: nat, draw2: nat)
    requires UploadId(stamp, draw) == UploadId(stamp2, draw2)
    ensures stamp == stamp2 && draw == draw2
  {
    NatTextHasNoUnderscore(stamp);
    NatTextHasNoUnderscore(stamp2);
    SplitAtSeparator("pdf_", NatText(stamp), NatText(draw), NatText(stamp2), NatText(draw2), '_');
    NatTextInjective(stamp, stamp2);
    NatTextInjective(draw, draw2);
  }

  const DefaultDescription := "Ingen beskrivning"

  /** The record the upload handler builds, before it is appended to `pdfFiles`. */
  function NewDocument(id: string, form: UploadForm, file: StoredFile, user: string, now: string, folderId: int): Document {
    Document(
      id := id,
      filename := DocumentTitle(form, file),
      description := if Given(form.description) then form.description.value else DefaultDescription,
      originalFilename := file.originalName,
      storedFilename := file.storedName,
      fileUrl := "/uploads/" + file.storedName,
      size := file.size,
      uploadedBy := user,
      uploadedAt := now,
      folderId := folderId,
      versionNumber := 1)
  }

  /** The answer of `POST /api/upload`. */
  datatype UploadResponse = Unauthorized | NoFile | UnknownFolder | Uploaded(file: Document) {
    function Status(): int {
      match this
      case Unauthorized => 401
      case NoFile => 400
      case UnknownFolder => 400
      case Uploaded(_) => 200
    }
  }

  /** The decision `POST /api/upload` takes, independent of the state of `pdfFiles`. */
  function UploadDecision(session: Option<string>, file: Option<StoredFile>, form: UploadForm,
                          id: string, now: string): (r: UploadResponse)
    ensures session.None? ==> r == Unauthorized
    ensures session.Some? && file.None? ==> r == NoFile
    ensures session.Some? && file.Some? && !r.Uploaded? ==> r == UnknownFolder
    ensures r.Uploaded? <==>
      session.Some? && file.Some? && ChosenFolderId(form.folderId).Num? &&
      1 <= ChosenFolderId(form.folderId).value <= 3
    ensures r.Uploaded? ==>
      && r.file.id == id
      && r.file.versionNumber == 1
      && r.file.folderId == ChosenFolderId(form.folderId).value
      && r.file.uploadedBy == session.value
      && r.file.fileUrl == "/uploads/" + file.value.storedName
      && r.file.storedFilename == file.value.storedName
      && r.file.originalFilename == file.value.originalName
      && r.file.size == file.value.size
      && r.file.uploadedAt == now
      && r.file.filename == DocumentTitle(form, file.value)
      && r.file.description == (if Given(form.description) then form.description.value else DefaultDescription)
    ensures r.Status() == 400 <==> session.Some? && !r.Uploaded?
  {
    FolderIds(ChosenFolderId(form.folderId));
    if session.None? then Unauthorized
    else if file.None? then NoFile
    else
      var folderId := ChosenFolderId(form.folderId);
      match FindFolderIn(Folders, folderId)
      case None => UnknownFolder
      case Some(folder) => Uploaded(NewDocument(id, form, file.value, session.value, now, folder.id))
  }

  /**
   * A file the upload middleware stored under its generated name is published under that
   * name: the record's URL is `/uploads/pdf-...`, ends with the original name with its
   * white-space runs made `_`, and holds no white space when the random part holds none.
   */
  lemma UploadedUnderStoredName(session: Option<string>, form: UploadForm, id: string, now: string,
                                stamp: nat, random: string, originalName: string, size: nat, r: UploadResponse)
    requires r == UploadDecision(session, Some(StoredFile(originalName, StoredFilename(stamp, random, originalName), size)), form, id, now)
    requires r.Uploaded?
    ensures r.file.storedFilename == StoredFilename(stamp, random, originalName)
    ensures |r.file.fileUrl| >= 13 && r.file.fileUrl[..13] == "/uploads/pdf-"
    ensures var tail := CollapseSpaceRuns(originalName);
      |r.file.fileUrl| >= |tail| && r.file.fileUrl[|r.file.fileUrl| - |tail|..] == tail
    ensures NoSpace(random) ==> NoSpace(r.file.fileUrl)
  {
    StoredNameUrl(r.file.fileUrl, stamp, random, originalName);
  }

  lemma StoredNameUrl(url: string, stamp: nat, random: string, originalName: string)
    requires url == "/uploads/" + StoredFilename(stamp, random, originalName)
    ensures |url| >= 13 && url[..13] == "/uploads/pdf-"
    ensures var tail := CollapseSpaceRuns(originalName);
      |url| >= |tail| && url[|url| - |tail|..] == tail
    ensures NoSpace(random) ==> NoSpace(url)
  {
    var name := StoredFilename(stamp, random, originalName);
    assert url[..13] == "/uploads/" + name[..4];
    var tail := CollapseSpaceRuns(originalName);
    assert url[|url| - |tail|..] == name[|name| - |tail|..];
    if NoSpace(random) {
      forall i | 0 <= i < |url| ensures !IsSpace(url[i]) {
        if i >= 9 { assert url[i] == name[i - 9]; }
      }
    }
  }

  // ---------------------------------------------------------------------------
  // Queries over the document list

  /** `pdfFiles.findIndex(p => p.id === id)`. */
  function FindIndex(files: seq<Document>, id: string): (r: int)
    ensures -1 <= r < |files|
    ensures r >= 0 ==> files[r].id == id && forall j :: 0 <= j < r ==> files[j].id != id
    ensures r == -1 ==> forall j :: 0 <= j < |files| ==> files[j].id != id
  {
    if files == [] then -1
    else if files[0].id == id then 0
    else
      var k := FindIndex(files[1..], id);
      if k < 0 then -1 else k + 1
  }

  /** `GET /api/pdfs/:id`: `pdfFiles.find(p => p.id === id)`, `None` for a 404. */
  function FindById(files: seq<Document>, id: string): (r: Option<Document>)
    ensures r.None? <==> forall d :: d in files ==> d.id != id
    ensures r.Some? ==>
      && r.value.id == id
      && exists i :: 0 <= i < |files| && files[i] == r.value && forall j :: 0 <= j < i ==> files[j].id != id
  {
    var i := FindIndex(files, id);
    if i < 0 then None else Some(files[i])
  }

  /**
   * The folder filter of `GET /api/pdfs`: `req.query.folderId ? parseInt(...) : null` and then
   * `if (folderId)`. Only a parse that gives a non-zero number selects a folder.
   */
  function FolderQuery(query: Option<string>): (r: Option<int>)
    ensures r.Some? <==> Given(query) && ParseInt(query.value).Truthy()
    ensures r.Some? ==> r.value != 0 && ParseInt(query.value) == Num(r.value)
  {
    if Given(query) && ParseInt(query.value).Truthy() then Some(ParseInt(query.value).value) else None
  }

  lemma FolderQueryText(n: int)
    requires n != 0
    ensures FolderQuery(Some(IntText(n))) == Some(n)
  {
    ParseIntText(n);
  }

  /** `pdfFiles.filter(pdf => pdf.folderId === folderId)`. */
  function FilterFolder(files: seq<Document>, folderId: int): (r: seq<Document>)
    ensures |r| <= |files|
    ensures forall d :: multiset(r)[d] == if d.folderId == folderId then multiset(files)[d] else 0
  {
    if files == [] then []
    else
      var rest := FilterFolder(files[1..], folderId);
      assert files == [files[0]] + files[1..];
      if files[0].folderId == folderId then [files[0]] + rest else rest
  }

  /** Filtering keeps array order: it distributes over concatenation. */
  lemma {:induction false} FilterFolderAppend(a: seq<Document>, b: seq<Document>, folderId: int)
    ensures FilterFolder(a + b, folderId) == FilterFolder(a, folderId) + FilterFolder(b, folderId)
  {
    if a == [] {
      assert a + b == b;
    } else {
      assert (a + b)[1..] == a[1..] + b;
      FilterFolderAppend(a[1..], b, folderId);
    }
  }

  /** `GET /api/pdfs`: the documents of the selected folder (not its sub-folders), or all of them. */
  function ListPdfs(files: seq<Document>, query: Option<string>): (r: seq<Document>)
    ensures FolderQuery(query).None? ==> r == files
    ensures FolderQuery(query).Some? ==> forall d :: d in r <==> d in files && d.folderId == FolderQuery(query).value
  {
    match FolderQuery(query)
    case None => files
    case Some(folderId) => FilterFolder(files, folderId)
  }

  /** A selected folder's list is the full list filtered by that folder. */
  lemma ListIsFilteredFullList(files: seq<Document>, query: Option<string>)
    requires FolderQuery(query).Some?
    ensures ListPdfs(files, query) == FilterFolder(ListPdfs(files, None), FolderQuery(query).value)
  {
  }

  /** `pdfFiles.splice(i, 1)`: the element at `i` goes, the others keep their order. */
  function RemoveAt(files: seq<Document>, i: nat): (r: seq<Document>)
    requires i < |files|
    ensures |r| == |files| - 1
    ensures forall k :: 0 <= k < i ==> r[k] == files[k]
    ensures forall k :: i <= k < |r| ==> r[k] == files[k + 1]
  {
    files[..i] + files[i + 1..]
  }

  /** `DELETE FROM pdf_documents WHERE id = ...`: every row with that id goes. */
  function RemoveId(rows: seq<Document>, id: string): (r: seq<Document>)
    ensures forall d :: d in r <==> d in rows && d.id != id
    ensures |r| <= |rows|
  {
    if rows == [] then []
    else if rows[0].id == id then RemoveId(rows[1..], id)
    else [rows[0]] + RemoveId(rows[1..], id)
  }

  predicate UniqueIds(files: seq<Document>) {
    forall i, j :: 0 <= i < j < |files| ==> files[i].id != files[j].id
  }

  // ---------------------------------------------------------------------------
  // How the operations relate

  /** A document uploaded under an id nobody else has is what `get` then finds. */
  lemma UploadThenGet(files: seq<Document>, d: Document)
    requires forall e :: e in files ==> e.id != d.id
    ensures FindById(files + [d], d.id) == Some(d)
  {
    var s := files + [d];
    assert forall j :: 0 <= j < |files| ==> s[j].id != d.id by {
      forall j | 0 <= j < |files| ensures s[j].id != d.id { assert s[j] == files[j] && files[j] in files; }
    }
    assert s[|files|] == d;
  }

  /** Uploading appends the document to every list whose folder it belongs to, and to no other. */
  lemma UploadThenList(files: seq<Document>, d: Document, query: Option<string>)
    ensures ListPdfs(files + [d], query) ==
      ListPdfs(files, query) + (if FolderQuery(query).None? || FolderQuery(query).value == d.folderId then [d] else [])
  {
    if FolderQuery(query).Some? {
      var folderId := FolderQuery(query).value;
      FilterFolderAppend(files, [d], folderId);
      assert FilterFolder([d], folderId) == if d.folderId == folderId then [d] else [] by {
        assert [d][1..] == [];
      }
    }
  }

  lemma UploadKeepsUniqueIds(files: seq<Document>, d: Document)
    requires UniqueIds(files)
    requires forall e :: e in files ==> e.id != d.id
    ensures UniqueIds(files + [d])
  {
    var s := files + [d];
    forall i, j | 0 <= i < j < |s| ensures s[i].id != s[j].id {
      assert s[i] == files[i] && files[i] in files;
      if j < |files| { assert s[j] == files[j]; }
    }
  }

  /** When ids are unique, a deleted document is gone for `get` and for every list. */
  lemma {:induction false} DeleteThenGet(files: seq<Document>, id: string, query: Option<string>)
    requires UniqueIds(files)
    requires FindIndex(files, id) >= 0
    ensures FindById(RemoveAt(files, FindIndex(files, id)), id).None?
    ensures forall d :: d in ListPdfs(RemoveAt(files, FindIndex(files, id)), query) ==> d.id != id
  {
    var i := FindIndex(files, id);
    var r := RemoveAt(files, i);
    forall d | d in r ensures d.id != id {
      var k :| 0 <= k < |r| && r[k] == d;
      if k >= i { assert r[k] == files[k + 1]; }
    }
  }

  lemma DeleteKeepsUniqueIds(files: seq<Document>, i: nat)
    requires UniqueIds(files) && i < |files|
    ensures UniqueIds(RemoveAt(files, i))
  {
    var r := RemoveAt(files, i);
    forall a, b | 0 <= a < b < |r| ensures r[a].id != r[b].id {
      var a' := if a < i then a else a + 1;
      var b' := if b < i then b else b + 1;
      assert r[a] == files[a'] && r[b] == files[b'];
    }
  }

  lemma UniqueTail(rows: seq<Document>)
    requires rows != [] && UniqueIds(rows)
    ensures UniqueIds(rows[1..])
    ensures forall j :: 0 <= j < |rows[1..]| ==> rows[1..][j].id != rows[0].id
  {
    forall a, b | 0 <= a < b < |rows[1..]| ensures rows[1..][a].id != rows[1..][b].id {
      assert rows[1..][a] == rows[a + 1] && rows[1..][b] == rows[b + 1];
    }
    forall j | 0 <= j < |rows[1..]| ensures rows[1..][j].id != rows[0].id {
      assert rows[1..][j] == rows[j + 1];
    }
  }

  /** A table without the id is left alone by the delete-by-id. */
  lemma {:induction false} RemoveAbsentId(rows: seq<Document>, id: string)
    requires forall j :: 0 <= j < |rows| ==> rows[j].id != id
    ensures RemoveId(rows, id) == rows
  {
    if rows != [] {
      RemoveAbsentId(rows[1..], id);
      assert rows == [rows[0]] + rows[1..];
    }
  }

  /** With unique ids, the table's delete-by-id removes exactly what the list's splice removes. */
  lemma {:induction false} RemoveIdMatchesSplice(rows: seq<Document>, id: string)
    requires UniqueIds(rows)
    ensures FindIndex(rows, id) < 0 ==> RemoveId(rows, id) == rows
    ensures FindIndex(rows, id) >= 0 ==> RemoveId(rows, id) == RemoveAt(rows, FindIndex(rows, id))
  {
    if FindIndex(rows, id) < 0 {
      RemoveAbsentId(rows, id);
    } else if rows[0].id == id {
      SpliceAtHead(rows, id);
    } else {
      UniqueTail(rows);
      RemoveIdMatchesSplice(rows[1..], id);
      SplicePastHead(rows, id);
    }
  }

  /** The id in the first row: both deletes drop that row and only it. */
  lemma SpliceAtHead(rows: seq<Document>, id: string)
    requires UniqueIds(rows) && rows != [] && rows[0].id == id
    ensures RemoveId(rows, id) == RemoveAt(rows, 0)
  {
    UniqueTail(rows);
    RemoveAbsentId(rows[1..], id);
    assert RemoveAt(rows, 0) == rows[1..];
  }

  /** The id further on: both deletes keep the first row and agree on the rest. */
  lemma SplicePastHead(rows: seq<Document>, id: string)
    requires rows != [] && rows[0].id != id && FindIndex(rows[1..], id) >= 0
    requires RemoveId(rows[1..], id) == RemoveAt(rows[1..], FindIndex(rows[1..], id))
    ensures FindIndex(rows, id) >= 0 && RemoveId(rows, id) == RemoveAt(rows, FindIndex(rows, id))
  {
    var k := FindIndex(rows[1..], id);
    assert FindIndex(rows, id) == k + 1;
    assert RemoveAt(rows, k + 1) == [rows[0]] + RemoveAt(rows[1..], k);
  }

  // ---------------------------------------------------------------------------
  // State: the document list and its database table

  /** The `pdf_documents` table, in the order its rows come back from a select. */
  class Database {
    var rows: seq<Document>

    constructor(rows: seq<Document>)
      ensures this.rows == rows
    {
      this.rows := rows;
    }
  }

  /** The answer of `GET /api/pdfs/:id`: 401, 404 or the document. */
  datatype GetResponse = GetUnauthorized | GetNotFound | Found(doc: Document)

  /** The answer of `DELETE /api/pdfs/:id`. */
  datatype DeleteResponse = DeleteUnauthorized | NotFound | Deleted {
    function Status(): int {
      match this
      case DeleteUnauthorized => 401
      case NotFound => 404
      case Deleted => 200
    }
  }

  /** The server's module-level state: `pdfFiles`, and the database it writes through to. */
  class Registry {
    var pdfFiles: seq<Document>
    const db: Database

    /** The table holds exactly the in-memory list. */
    ghost predicate Mirrored()
      reads this, db
    {
      db.rows == pdfFiles
    }

    /** Process start: `let pdfFiles = []`, whatever the table holds. */
    constructor(db: Database)
      ensures this.db == db && pdfFiles == []
    {
      this.db := db;
      pdfFiles := [];
    }

    /** `POST /api/upload`; `insertOk` is the outcome of the single-row insert. */
    method Upload(session: Option<string>, file: Option<StoredFile>, form: UploadForm,
                  stamp: nat, draw: nat, now: string, insertOk: bool) returns (res: UploadResponse)
      modifies this, db
      ensures res == UploadDecision(session, file, form, UploadId(stamp, draw), now)
      ensures pdfFiles == if res.Uploaded? then old(pdfFiles) + [res.file] else old(pdfFiles)
      ensures db.rows == if res.Uploaded? && insertOk then old(db.rows) + [res.file] else old(db.rows)
      ensures old(Mirrored()) && (insertOk || !res.Uploaded?) ==> Mirrored()
    {
      if session.None? {
        return Unauthorized;
      }
      if file.None? {
        return NoFile;
      }
      var folderId := ChosenFolderId(form.folderId);
      var folder := FindFolderIn(Folders, folderId);
      if folder.None? {
        return UnknownFolder;
      }
      var uniqueId := UploadId(stamp, draw);
      var pdfFile := NewDocument(uniqueId, form, file.value, session.value, now, folder.value.id);
      pdfFiles := pdfFiles + [pdfFile];
      if insertOk {
        db.rows := db.rows + [pdfFile];
      }
      res := Uploaded(pdfFile);
    }

    /** `GET /api/pdfs`; `None` stands for the 401 answer. */
    function List(session: Option<string>, query: Option<string>): (r: Option<seq<Document>>)
      reads this
      ensures r.Some? <==> session.Some?
      ensures r.Some? ==> r.value == ListPdfs(pdfFiles, query)
      ensures r.Some? && FolderQuery(query).None? ==> r.value == pdfFiles
      ensures r.Some? && FolderQuery(query).Some? ==>
        forall d :: d in r.value <==> d in pdfFiles && d.folderId == FolderQuery(query).value
    {
      if session.None? then None else Some(ListPdfs(pdfFiles, query))
    }

    /** `GET /api/pdfs/:id`. */
    function Get(session: Option<string>, id: string): (r: GetResponse)
      reads this
      ensures r.GetUnauthorized? <==> session.None?
      ensures session.Some? ==> (r.Found? <==> exists d :: d in pdfFiles && d.id == id)
      ensures r.Found? ==> r.doc.id == id && r.doc in pdfFiles
      ensures r.Found? ==> Some(r.doc) == FindById(pdfFiles, id)
    {
      if session.None? then GetUnauthorized
      else match FindById(pdfFiles, id)
        case None => GetNotFound
        case Some(d) => Found(d)
    }

    /** `DELETE /api/pdfs/:id`; `dbOk` is the outcome of the table delete. */
    method Delete(session: Option<string>, id: string, dbOk: bool) returns (res: DeleteResponse)
      modifies this, db
      ensures res == DeleteUnauthorized <==> session.None?
      ensures session.Some? ==> (res == NotFound <==> FindIndex(old(pdfFiles), id) < 0)
      ensures res.Deleted? ==> pdfFiles == RemoveAt(old(pdfFiles), FindIndex(old(pdfFiles), id))
      ensures !res.Deleted? ==> pdfFiles == old(pdfFiles)
      ensures db.rows == if res.Deleted? && dbOk then RemoveId(old(db.rows), id) else old(db.rows)
      ensures old(Mirrored()) && UniqueIds(old(pdfFiles)) && (dbOk || !res.Deleted?) ==> Mirrored()
    {
      if session.None? {
        return DeleteUnauthorized;
      }
      var pdfIndex := FindIndex(pdfFiles, id);
      if pdfIndex == -1 {
        return NotFound;
      }
      if dbOk {
        db.rows := RemoveId(db.rows, id);
      }
      if UniqueIds(pdfFiles) {
        RemoveIdMatchesSplice(pdfFiles, id);
      }
      pdfFiles := pdfFiles[..pdfIndex] + pdfFiles[pdfIndex + 1..];
      res := Deleted;
    }

    /**
     * `savePDFFilesToDB`: delete every row, then insert the whole list. A failed delete
     * leaves the table as it was; a failed insert after it leaves the table empty.
     */
    method SaveAll(deleteOk: bool, insertOk: bool)
      modifies db
      ensures !deleteOk ==> db.rows == old(db.rows)
      ensures deleteOk ==> db.rows == if insertOk then pdfFiles else []
      ensures deleteOk && (insertOk || pdfFiles == []) ==> Mirrored()
    {
      if !deleteOk {
        return;
      }
      db.rows := [];
      if |pdfFiles| > 0 && insertOk {
        db.rows := pdfFiles;
      }
    }

    /** `loadPDFFilesFromDB`: the list is replaced only by a non-empty, successfully read table. */
    method LoadAll(selectOk: bool)
      modifies this
      ensures selectOk && db.rows != [] ==> pdfFiles == db.rows
      ensures !(selectOk && db.rows != []) ==> pdfFiles == old(pdfFiles)
      ensures old(Mirrored()) ==> Mirrored()
    {
      if selectOk && |db.rows| > 0 {
        pdfFiles := db.rows;
      }
    }
  }
}
