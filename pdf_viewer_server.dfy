/**
 * The PDF viewer server (pdf-viewer-server.js): an in-memory list of PDF metadata records
 * that clients save, list and fetch, the upload endpoint, and the retrying forwarder that
 * passes every other `/api` request on to the backend.
 */
module PdfViewerServer {

  import opened Wrappers
  import opened JsText

  // ---------------------------------------------------------------------------
  // JSON records

  /**
   * A JSON value as the body parser hands it over. Numbers are integers; arrays and
   * objects are not told apart, since the server only tests their truthiness and identity.
   */
  datatype Json = JNull | JBool(b: bool) | JNum(n: int) | JStr(s: string) | JComposite {

    /** JavaScript truthiness. */
    predicate Truthy() {
      match this
      case JNull => false
      case JBool(b) => b
      case JNum(n) => n != 0
      case JStr(s) => s != ""
      case JComposite => true
    }
  }

  /**
   * `a === b` for values parsed from different requests: primitives compare by value,
   * while an array or object is a fresh reference equal to nothing else.
   */
  predicate StrictEquals(a: Json, b: Json) {
    !a.JComposite? && a == b
  }

  /** A metadata record: a JSON object, field name to value. Field order is not modelled. */
  type Record = map<string, Json>

  /** `record[key]` is truthy; a missing field is `undefined`, which is falsy. */
  predicate HasTruthy(record: Record, key: string) {
    key in record && record[key].Truthy()
  }

  /** `p.id === id`; a record without an `id` field never matches a defined value. */
  predicate HasId(p: Record, id: Json) {
    "id" in p && StrictEquals(p["id"], id)
  }

  /** The three records the list holds at start-up. */
  const SeedRecords: seq<Record> := [
    map["id" := JStr("pdf_1747231245129"), "filename" := JStr("Namnlös PDF"),
        "description" := JStr("Automatiskt sparad PDF"), "versionNumber" := JNum(1),
        "uploadedBy" := JStr("Du"), "uploaded" := JStr("14 maj 2025 16:00"),
        "fileUrl" := JStr("/uploads/test.pdf")],
    map["id" := JStr("pdf_1747231513094"), "filename" := JStr("AAAAExempel på ritningar"),
        "description" := JStr("--"), "versionNumber" := JNum(1),
        "uploadedBy" := JStr("Du"), "uploaded" := JStr("14 maj 2025 17:21"),
        "fileUrl" := JStr("/uploads/test.pdf")],
    map["id" := JStr("pdf_1747232594208"), "filename" := JStr("BEAM Guidelines 2.0 (1)"),
        "description" := JStr("--"), "versionNumber" := JNum(1),
        "uploadedBy" := JStr("Du"), "uploaded" := JStr("14 maj 2025 17:20"),
        "fileUrl" := JStr("/uploads/test.pdf")]
  ]

  /**
   * A generated id: `'pdf_' + Date.now() + '_' + Math.random().toString(36).substring(2, 8)`,
   * with the clock reading and the random text as parameters.
   */
  function FreshId(stamp: nat, random: string): (r: string)
    ensures |r| > 4 && r[..4] == "pdf_"
  {
    "pdf_" + NatText(stamp) + "_" + random
  }

  /** Generated ids collide only when both the clock reading and the random text agree. */
  lemma FreshIdInjective(stamp: nat, random: string, stamp2: nat, random2: string)
    requires FreshId(stamp, random) == FreshId(stamp2, random2)
    ensures stamp == stamp2 && random == random2
  {
    NatTextHasNoUnderscore(stamp);
    NatTextHasNoUnderscore(stamp2);
    SplitAtSeparator("pdf_", NatText(stamp), random, NatText(stamp2), random2, '_');
    NatTextInjective(stamp, stamp2);
  }

  // ---------------------------------------------------------------------------
  // Lookups and the upsert

  /** `pdfFiles.findIndex(p => p.id === id)`. */
  function IndexOfId(files: seq<Record>, id: Json): (r: int)
    ensures -1 <= r < |files|
    ensures r >= 0 ==> HasId(files[r], id) && forall j :: 0 <= j < r ==> !HasId(files[j], id)
    ensures r == -1 <==> forall j :: 0 <= j < |files| ==> !HasId(files[j], id)
  {
    if files == [] then -1
    else if HasId(files[0], id) then 0
    else
      var k := IndexOfId(files[1..], id);
      if k < 0 then -1 else k + 1
  }

  /** The first index holding the id is what the search finds. */
  lemma IndexOfIdIs(files: seq<Record>, id: Json, i: nat)
    requires i < |files| && HasId(files[i], id)
    requires forall j :: 0 <= j < i ==> !HasId(files[j], id)
    ensures IndexOfId(files, id) == i
  {
  }

  /** `GET /api/pdf/:id` looks up the route parameter, which is always text. */
  function FindRecord(files: seq<Record>, id: string): (r: Option<Record>)
    ensures r.None? <==> forall p :: p in files ==> !HasId(p, JStr(id))
    ensures r.Some? ==> HasId(r.value, JStr(id)) && r.value in files
    ensures r.Some? ==> IndexOfId(files, JStr(id)) >= 0 && r.value == files[IndexOfId(files, JStr(id))]
  {
    var i := IndexOfId(files, JStr(id));
    if i < 0 then None else Some(files[i])
  }

  /**
   * The body of `POST /api/pdf/save` after the handler has filled it in: a falsy `id` is
   * replaced by a generated one, and the uploader fields are overwritten.
   */
  function Prepared(body: Record, user: string, freshId: string, now: string): (r: Record)
    ensures r.Keys == body.Keys + {"id", "uploadedBy", "uploaded"}
    ensures r["uploadedBy"] == JStr(user) && r["uploaded"] == JStr(now)
    ensures HasTruthy(body, "id") ==> r["id"] == body["id"]
    ensures !HasTruthy(body, "id") ==> r["id"] == JStr(freshId)
    ensures forall k :: k in body && k != "id" && k != "uploadedBy" && k != "uploaded" ==> r[k] == body[k]
  {
    var withId := if HasTruthy(body, "id") then body else body["id" := JStr(freshId)];
    withId["uploadedBy" := JStr(user)]["uploaded" := JStr(now)]
  }

  lemma PreparedIdTruthy(body: Record, user: string, stamp: nat, random: string, now: string)
    ensures Prepared(body, user, FreshId(stamp, random), now)["id"].Truthy()
  {
  }

  /**
   * The list after saving `rec`: merged over the first record with the same id (fields of
   * `rec` win), or appended when there is none.
   */
  function Upserted(files: seq<Record>, rec: Record): (r: seq<Record>)
    requires "id" in rec
  {
    var i := IndexOfId(files, rec["id"]);
    if i >= 0 then files[i := files[i] + rec] else files + [rec]
  }

  /** What saving does to the list, element by element. */
  lemma UpsertedShape(files: seq<Record>, rec: Record)
    requires "id" in rec
    ensures var i := IndexOfId(files, rec["id"]);
      && (i >= 0 ==> |Upserted(files, rec)| == |files|)
      && (i < 0 ==> |Upserted(files, rec)| == |files| + 1 && Upserted(files, rec)[|files|] == rec)
      && (forall j :: 0 <= j < |files| && j != i ==> Upserted(files, rec)[j] == files[j])
      && (i >= 0 ==> forall k :: k in Upserted(files, rec)[i] <==> k in files[i] || k in rec)
      && (i >= 0 ==> forall k :: k in rec ==> Upserted(files, rec)[i][k] == rec[k])
      && (i >= 0 ==> forall k :: k in files[i] && k !in rec ==> Upserted(files, rec)[i][k] == files[i][k])
  {
  }

  /** Saving the same record twice is saving it once, unless its id is an array or an object. */
  lemma UpsertIdempotent(files: seq<Record>, rec: Record)
    requires "id" in rec && !rec["id"].JComposite?
    ensures Upserted(Upserted(files, rec), rec) == Upserted(files, rec)
  {
    var i := IndexOfId(files, rec["id"]);
    var once := Upserted(files, rec);
    if i >= 0 {
      assert once[i] == files[i] + rec;
      assert forall j :: 0 <= j < i ==> once[j] == files[j];
      assert IndexOfId(once, rec["id"]) == i;
      assert once[i] + rec == once[i];
    } else {
      assert forall j :: 0 <= j < |files| ==> once[j] == files[j];
      IndexOfIdIs(once, rec["id"], |files|);
      assert rec + rec == rec;
    }
  }

  /** A record whose id is an array or an object matches nothing, so every save appends it. */
  lemma CompositeIdAppends(files: seq<Record>, rec: Record)
    requires "id" in rec && rec["id"].JComposite?
    ensures Upserted(files, rec) == files + [rec]
  {
  }

  /** After a save under a text id, `GET /api/pdf/:id` returns a record carrying every saved field. */
  lemma SaveThenGet(files: seq<Record>, rec: Record, id: string)
    requires "id" in rec && rec["id"] == JStr(id)
    ensures FindRecord(Upserted(files, rec), id).Some?
    ensures forall k :: k in rec ==>
      && k in FindRecord(Upserted(files, rec), id).value
      && FindRecord(Upserted(files, rec), id).value[k] == rec[k]
  {
    var i := IndexOfId(files, rec["id"]);
    var r := Upserted(files, rec);
    if i >= 0 {
      assert forall j :: 0 <= j < i ==> r[j] == files[j];
      IndexOfIdIs(r, JStr(id), i);
    } else {
      assert forall j :: 0 <= j < |files| ==> r[j] == files[j];
      IndexOfIdIs(r, JStr(id), |files|);
    }
  }

  /**
   * A record saved under an id that is not text (a number, say) cannot be fetched: the
   * fetch by route parameter answers exactly as it did before the save.
   */
  lemma NonTextIdUnseen(files: seq<Record>, rec: Record, id: string)
    requires "id" in rec && !rec["id"].JStr?
    ensures FindRecord(Upserted(files, rec), id) == FindRecord(files, id)
  {
    var i := IndexOfId(files, rec["id"]);
    var r := Upserted(files, rec);
    var k := IndexOfId(files, JStr(id));
    if i >= 0 {
      assert !HasId(r[i], JStr(id));
      assert forall j :: 0 <= j < |files| && j != i ==> r[j] == files[j];
      assert IndexOfId(r, JStr(id)) == k;
    } else {
      assert forall j :: 0 <= j < |files| ==> r[j] == files[j];
      assert !HasId(r[|files|], JStr(id));
      assert IndexOfId(r, JStr(id)) == k;
    }
  }

  // ---------------------------------------------------------------------------
  // Upload

  /** What the upload middleware hands to the handler (`req.file`). */
  datatype UploadedFile = UploadedFile(originalName: string, storedName: string, path: string, size: nat, mimetype: string)

  /** The description of an uploaded file that the upload endpoint answers with. */
  datatype FileInfo = FileInfo(
    id: string,
    originalFilename: string,
    filename: string,
    path: string,
    size: nat,
    mimetype: string,
    uploadedBy: string,
    uploaded: string,
    serverPath: string)

  datatype UploadReply = UploadUnauthorized | UploadNoFile | UploadAccepted(file: FileInfo)

  datatype SaveReply = SaveUnauthorized | Saved(pdf: Record)

  datatype GetReply = GetUnauthorized | GetNotFound | Fetched(pdf: Record)

  // ---------------------------------------------------------------------------
  // The server's state

  class ViewerRegistry {
    var pdfFiles: seq<Record>

    constructor()
      ensures pdfFiles == SeedRecords
    {
      pdfFiles := SeedRecords;
    }

    /** `GET /api/pdf/list`: the whole list, in order; `None` is the 401 answer. */
    function List(session: Option<string>): (r: Option<seq<Record>>)
      reads this
      ensures r.Some? <==> session.Some?
      ensures r.Some? ==> r.value == pdfFiles
    {
      if session.None? then None else Some(pdfFiles)
    }

    /** `GET /api/pdf/:id`. */
    function Get(session: Option<string>, id: string): (r: GetReply)
      reads this
      ensures r.GetUnauthorized? <==> session.None?
      ensures session.Some? ==> (r.Fetched? <==> exists p :: p in pdfFiles && HasId(p, JStr(id)))
      ensures r.Fetched? ==> r.pdf in pdfFiles && HasId(r.pdf, JStr(id))
      ensures r.Fetched? ==> Some(r.pdf) == FindRecord(pdfFiles, id)
    {
      if session.None? then GetUnauthorized
      else match FindRecord(pdfFiles, id)
        case None => GetNotFound
        case Some(p) => Fetched(p)
    }

    /**
     * `POST /api/pdf/upload`: describes the stored file. It reads nothing of the list and
     * changes nothing: the method has no `modifies` clause.
     */
    method Upload(session: Option<string>, file: Option<UploadedFile>, stamp: nat, random: string, now: string)
      returns (reply: UploadReply)
      ensures session.None? <==> reply.UploadUnauthorized?
      ensures session.Some? && file.None? <==> reply.UploadNoFile?
      ensures reply.UploadAccepted? ==>
        && reply.file.id == FreshId(stamp, random)
        && reply.file.uploadedBy == session.value
        && reply.file.uploaded == now
        && reply.file.originalFilename == file.value.originalName
        && reply.file.filename == file.value.storedName
        && reply.file.path == file.value.path
        && reply.file.mimetype == file.value.mimetype
        && reply.file.serverPath == "/uploads/" + file.value.storedName
        && reply.file.size == file.value.size
    {
      if session.None? {
        return UploadUnauthorized;
      }
      if file.None? {
        return UploadNoFile;
      }
      var f := file.value;
      var fileInfo := FileInfo(
        id := FreshId(stamp, random),
        originalFilename := f.originalName,
        filename := f.storedName,
        path := f.path,
        size := f.size,
        mimetype := f.mimetype,
        uploadedBy := session.value,
        uploaded := now,
        serverPath := "/uploads/" + f.storedName);
      reply := UploadAccepted(fileInfo);
    }

    /** `POST /api/pdf/save`: fill in the body, then merge it into the list or append it. */
    method Save(session: Option<string>, body: Record, stamp: nat, random: string, now: string)
      returns (reply: SaveReply)
      modifies this
      ensures session.None? ==> reply == SaveUnauthorized && pdfFiles == old(pdfFiles)
      ensures session.Some? ==> reply == Saved(Prepared(body, session.value, FreshId(stamp, random), now))
      ensures session.Some? ==> pdfFiles == Upserted(old(pdfFiles), reply.pdf)
    {
      if session.None? {
        return SaveUnauthorized;
      }
      var pdfData := body;
      if !HasTruthy(pdfData, "id") {
        pdfData := pdfData["id" := JStr(FreshId(stamp, random))];
      }
      pdfData := pdfData["uploadedBy" := JStr(session.value)];
      pdfData := pdfData["uploaded" := JStr(now)];
      var existingIndex := IndexOfId(pdfFiles, pdfData["id"]);
      if existingIndex != -1 {
        pdfFiles := pdfFiles[existingIndex := pdfFiles[existingIndex] + pdfData];
      } else {
        pdfFiles := pdfFiles + [pdfData];
      }
      reply := Saved(pdfData);
    }
  }

  // ---------------------------------------------------------------------------
  // The retrying `/api` forwarder

  /** The outcome of one request to the backend. */
  datatype Attempt =
    | Failed(message: string, code: Option<string>)
    | Answered(status: int, headers: map<string, string>, body: string)

  datatype ProxyReply =
    | PassOn
    | BadGateway(details: string, code: string)
    | Forwarded(status: int, headers: map<string, string>, body: string)

  const MaxRetries := 3

  /**
   * The `/api` handler. A URL (relative to `/api`) under `/backend` is passed on untouched.
   * Otherwise the request is sent; after failure number `k`, for `k < 3`, the handler waits
   * `1000 * k` ms and sends it again. The first answer is forwarded; the third failure gives 502.
   * `backend(k)` is the outcome of the request sent `k + 1`-th; `delays` lists the waits.
   */
  method ProxyApi(url: string, backend: nat -> Attempt) returns (reply: ProxyReply, attempts: nat, delays: seq<nat>)
    ensures StartsWith(url, "/backend") <==> reply.PassOn?
    ensures reply.PassOn? ==> attempts == 0 && delays == []
    ensures !reply.PassOn? ==> 1 <= attempts <= MaxRetries && |delays| == attempts - 1
    ensures forall k :: 0 <= k < |delays| ==> delays[k] == 1000 * (k + 1)
    ensures forall k :: 0 <= k < attempts - 1 ==> backend(k).Failed?
    ensures reply.Forwarded? ==> backend(attempts - 1) == Answered(reply.status, reply.headers, reply.body)
    ensures reply.BadGateway? <==> !StartsWith(url, "/backend") && forall k :: 0 <= k < MaxRetries ==> backend(k).Failed?
    ensures reply.BadGateway? ==> attempts == MaxRetries && delays == [1000, 2000]
    ensures reply.BadGateway? ==>
      && reply.details == backend(2).message
      && reply.code == (if backend(2).code.Some? && backend(2).code.value != "" then backend(2).code.value else "UNKNOWN_ERROR")
  {
    if StartsWith(url, "/backend") {
      return PassOn, 0, [];
    }
    var retryCount := 0;
    delays := [];
    var outcome := backend(0);
    while outcome.Failed? && retryCount < MaxRetries - 1
      invariant 0 <= retryCount <= MaxRetries - 1
      invariant outcome == backend(retryCount)
      invariant forall k :: 0 <= k < retryCount ==> backend(k).Failed?
      invariant |delays| == retryCount
      invariant forall k :: 0 <= k < |delays| ==> delays[k] == 1000 * (k + 1)
      decreases MaxRetries - retryCount
    {
      retryCount := retryCount + 1;
      delays := delays + [1000 * retryCount];
      outcome := backend(retryCount);
    }
    attempts := retryCount + 1;
    match outcome
    case Failed(message, code) =>
      reply := BadGateway(message, if code.Some? && code.value != "" then code.value else "UNKNOWN_ERROR");
    case Answered(status, headers, body) =>
      reply := Forwarded(status, headers, body);
  }
}
