# StargateV1 document logic in Dafny

StargateV1 is a construction-project portal. Around its UI and HTTP plumbing sit a few
pieces of logic with precise behaviour, and this project models them and proves properties
of them:

- **The PDF manager server** (`basic-pdf-manager/server.js`), module `PdfManager`. It has a
  fixed folder table and an in-memory document list `pdfFiles`, mirrored best-effort into the
  `pdf_documents` table. Upload, list, get and delete act on the list. `savePDFFilesToDB`
  rewrites the table and `loadPDFFilesFromDB` refills the list from it. The list and the
  table are the fields of the classes `Registry` and `Database`. Upload and delete are
  methods that change them; list and get are functions that read them.
- **The PDF viewer server** (`pdf-viewer-server.js`), module `PdfViewerServer`. It keeps a
  list of metadata records. Save is an upsert: it merges over the record with the same id, or
  appends. Get looks a record up by id. The upload endpoint describes the stored file and
  never touches the list. The `/api` forwarder makes at most three attempts at a backend
  request, that is, at most two retries.
- **The name under which uploads are stored**, module `UploadNaming`. Both servers use the
  same shape, `pdf-<time>-<random>-<name with each white-space run replaced by _>`. See
  `basic-pdf-manager/server.js:24-29` and `pdf-viewer-server.js:23-27`.
- **The JavaScript string semantics these rely on**, module `JsText`:
  - the `\s` class;
  - `replace` with `/\s+/g` and with a string pattern;
  - `parseInt` without a radix, including white-space skipping, sign, `0x`, digit prefix and
    `NaN`;
  - the decimal text of an integer.
- **The front end's error classifier** `parseApiError`
  (`frontend/src/utils/errorHandling.ts`), module `ErrorHandling`.
- **The page state of the PDF dialog** (`frontend/src/components/DirectPDFDialog.tsx`),
  module `DirectPdfDialog`. It covers the guarded previous/next navigation and the retrying
  loops that load the document and render the current page.
- **The zoom of the second PDF dialog** (`frontend/src/components/NewPDFDialog.tsx`), module
  `NewPdfDialog`.
- **The Django file views** (`backend/files/views.py`), module `FileViews`:
  - the query parameters that narrow the directory and file listings;
  - the `versions` action, which walks `previous_version` back to the first version and then
    forward along first successors.

The modelling choices:

- **Sessions.** A request's session is an `Option` of the user name; `None` takes the 401
  path.
- **Outside calls.** Clocks, random numbers, the PDF library and the backend are parameters.
  Database and file-system calls are represented only by whether they succeeded.
- **Django key conversion.** Turning a query parameter into a key is the key field's own
  conversion. It is passed in as `asKey`; `None` stands for a text the field refuses.
- **Table order.** A Django table is one fixed sequence of rows, and every listing and
  `first()` reads it in that order. Django itself gives an unordered listing no defined order,
  and `first()` orders by primary key when `File` declares no ordering
  (`backend/files/models.py` is not part of this model). The model's "earliest row of the
  sequence" is therefore Django's `first()` only when the sequence is in that order, which
  `FileViews.WellFormedTable` does not demand.
- **Cycles and broken links in `versions`.** The backward loop never ends on a cycle of
  `previous_version` links, and the model reports that as `NeverAnswers`. A dangling link
  makes the source's lookup raise, and the model reports that as `BrokenLink`. The table is
  assumed to have unique ids and nothing more.

Some consequences of the code as written that the lemmas make explicit:

- **Branched history.** When two files name the same previous version, `versions` lists only
  the first branch. The requested file can then be missing from its own history
  (`FileViews.BranchedHistoryOmitsRequest`). Without branches it is always listed, at its
  distance from the first version (`FileViews.RequestedFileListed`).
- **Non-text ids in the viewer server.** A record saved there with a number (or any non-text
  value) as its `id` can never be fetched, because the route parameter is always text
  (`PdfViewerServer.NonTextIdUnseen`). A record whose `id` is an array or object is appended
  on every save (`PdfViewerServer.CompositeIdAppends`).
- **`versions` sees only latest versions by default.** It finds the requested file through
  the listing's own filter. An older version is therefore not found unless the request says
  `latest_only=false`, or gives any other value than `true` in some casing.

## Model

| member | source | states |
|---|---|---|
| JsText.DropSpaces | basic-pdf-manager/server.js:189 | `parseInt` skips exactly the leading run of `\s` white space: what is dropped is all white space and what remains does not start with it |
| JsText.CollapseSpaceRuns | basic-pdf-manager/server.js:27 | `replace(/\s+/g, '_')` leaves no white space and never lengthens the text |
| JsText.CollapseSpaceRun | basic-pdf-manager/server.js:27 | a non-empty run of white space becomes exactly one underscore |
| JsText.CollapseAroundNonSpace | basic-pdf-manager/server.js:27 | runs are maximal: a non-space character splits the text and each side is rewritten on its own |
| JsText.CollapseKeepsSpaceless | basic-pdf-manager/server.js:27 | text without white space is left unchanged |
| JsText.CollapseIdempotent | basic-pdf-manager/server.js:27 | replacing a second time changes nothing |
| JsText.RemoveFirst | basic-pdf-manager/server.js:203 | `replace('.pdf', '')` leaves a text without the pattern unchanged and otherwise removes exactly one pattern's length |
| JsText.RemoveFirstAt | basic-pdf-manager/server.js:203 | when the first occurrence is at `i`, exactly the characters of that occurrence are removed and the rest keeps its order |
| JsText.NatText | basic-pdf-manager/server.js:198 | the decimal text of a number is non-empty, all digits and without leading zero |
| JsText.IntText | frontend/src/utils/errorHandling.ts:56 | the text of an integer is non-empty and holds no white space |
| JsText.DigitPrefix | basic-pdf-manager/server.js:189 | `parseInt` reads the longest prefix of digits of the radix: every character in it is a digit and the next one is not |
| JsText.ReadMagnitude | basic-pdf-manager/server.js:189 | after `0x` or `0X`, a number is read exactly when a hex digit follows, and it is the value of the hex digits that follow; otherwise exactly when the text starts with a decimal digit, and it is the value of the leading decimal digits; no digit gives `NaN` |
| JsText.NatTextValue | basic-pdf-manager/server.js:189 | the digits of a number's decimal text have that number as their value |
| JsText.ParseIntText | basic-pdf-manager/server.js:189 | `parseInt` reads back the decimal text of every integer, negative ones included |
| JsText.ParseIntPrefix | basic-pdf-manager/server.js:189 | `parseInt` reads an integer's text back after leading white space and before any text that does not continue the number |
| JsText.DigitPrefixStops | basic-pdf-manager/server.js:189 | the digit prefix stops exactly where a run of digits is followed by a non-digit |
| JsText.NatTextInjective | basic-pdf-manager/server.js:198 | different numbers have different decimal texts |
| UploadNaming.StoredFilename | basic-pdf-manager/server.js:24-29 | the stored name starts with `pdf-`, ends with `-` and the original name with its white-space runs made `_`, and holds no white space when the random part holds none |
| PdfManager.UploadedUnderStoredName | basic-pdf-manager/server.js:206-207 | an upload stored under the generated name records that name, and its URL is `/uploads/pdf-…` ending in the original name with white-space runs made `_`, free of white space when the random part is |
| PdfManager.FindFolderIn | basic-pdf-manager/server.js:192 | a folder is found exactly when the parsed id is a number equal to some folder's id (`NaN` equals none), and it is that folder |
| PdfManager.FolderIds | basic-pdf-manager/server.js:65-90 | exactly the ids 1, 2 and 3 name a folder |
| PdfManager.ChosenFolderId | basic-pdf-manager/server.js:189 | an absent or empty `folderId` field chooses folder 1; any other is parsed with `parseInt` |
| PdfManager.ChosenFolderText | basic-pdf-manager/server.js:189 | a folder id sent as its decimal text chooses that folder |
| PdfManager.DocumentTitle | basic-pdf-manager/server.js:203 | the title is the form's title when given; otherwise the original name with at most its first `.pdf` removed, unchanged when it has none |
| PdfManager.TitleDropsExtension | basic-pdf-manager/server.js:203 | a name ending in `.pdf`, with no earlier occurrence, loses exactly that ending |
| PdfManager.UploadId | basic-pdf-manager/server.js:198 | a document id starts with `pdf_` |
| PdfManager.UploadIdInjective | basic-pdf-manager/server.js:198 | two uploads get the same id only when their clock readings and drawn numbers both agree |
| PdfManager.UploadDecision | basic-pdf-manager/server.js:180-213 | 401 without a session, 400 `Ingen fil uppladdad` without a file and 400 `Angiven mapp existerar inte` with a folder id outside 1..3 (NaN included), otherwise a record with version 1, the chosen folder, the session's user, the upload time, `/uploads/<stored name>`, the stored and original names, the size, the title and the description or its default |
| PdfManager.FindIndex | basic-pdf-manager/server.js:285 | `findIndex` gives the first index holding the id, or -1 exactly when no element holds it |
| PdfManager.FindById | basic-pdf-manager/server.js:270 | `find` gives nothing exactly when no document has the id, and otherwise the first document with it |
| PdfManager.FolderQuery | basic-pdf-manager/server.js:249-253 | the list selects a folder exactly when the parameter is given and parses to a non-zero number; absent, empty, `0` and `NaN` select none |
| PdfManager.FolderQueryText | basic-pdf-manager/server.js:249 | a non-zero folder id sent as text selects that folder |
| PdfManager.FilterFolder | basic-pdf-manager/server.js:255 | the filter keeps every document of the folder, as often as it occurs, and nothing else |
| PdfManager.FilterFolderAppend | basic-pdf-manager/server.js:255 | the filter keeps array order: it distributes over concatenation |
| PdfManager.ListPdfs | basic-pdf-manager/server.js:249-259 | without a selected folder the list is the whole array; with one, exactly the documents of that folder (not of its sub-folders) |
| PdfManager.ListIsFilteredFullList | basic-pdf-manager/server.js:253-259 | a folder's list is the full list filtered by that folder |
| PdfManager.RemoveAt | basic-pdf-manager/server.js:313 | `splice(i, 1)` removes the element at `i` and keeps the others in order |
| PdfManager.RemoveId | basic-pdf-manager/server.js:305 | the table delete removes exactly the rows with the id |
| PdfManager.UploadThenGet | basic-pdf-manager/server.js:216 | a document appended under an unused id is what `get` then finds |
| PdfManager.UploadThenList | basic-pdf-manager/server.js:216 | an upload appends the document to the full list and to its own folder's list, and leaves every other list as it was |
| PdfManager.UploadKeepsUniqueIds | basic-pdf-manager/server.js:216 | appending under an unused id keeps the ids unique |
| PdfManager.DeleteThenGet | basic-pdf-manager/server.js:285-313 | with unique ids, a deleted document is gone for `get` and for every list |
| PdfManager.DeleteKeepsUniqueIds | basic-pdf-manager/server.js:313 | splicing keeps the ids unique |
| PdfManager.RemoveIdMatchesSplice | basic-pdf-manager/server.js:304-313 | with unique ids, the table's delete-by-id and the list's splice remove the same element |
| PdfManager.Database.constructor | basic-pdf-manager/server.js:127 | the table holds the given rows |
| PdfManager.Registry.constructor | basic-pdf-manager/server.js:93 | the list starts empty, whatever the table holds |
| PdfManager.Registry.Upload | basic-pdf-manager/server.js:178-232 | the answer is the upload decision; only a successful upload appends exactly its record; the table gains it only when the insert succeeds; a mirrored table stays mirrored unless the insert fails |
| PdfManager.Registry.List | basic-pdf-manager/server.js:244-262 | 401 exactly without a session; otherwise exactly the documents of the selected folder, in list order, or the whole list when no folder is asked for |
| PdfManager.Registry.Get | basic-pdf-manager/server.js:265-277 | 401 exactly without a session; otherwise a document is returned exactly when one has the id, and it is the first document with that id |
| PdfManager.Registry.Delete | basic-pdf-manager/server.js:280-316 | 401 exactly without a session; 404 exactly when no document has the id, with the list unchanged; otherwise that element is spliced out whether or not the table delete succeeds; a mirrored table with unique ids stays mirrored unless that delete fails |
| PdfManager.Registry.SaveAll | basic-pdf-manager/server.js:96-122 | a failed delete leaves the table as it was; otherwise the table becomes the list, or empty when the insert fails; the list never changes |
| PdfManager.Registry.LoadAll | basic-pdf-manager/server.js:125-136 | the list is replaced by the table only when the select succeeds and returns rows; otherwise it is unchanged |
| PdfViewerServer.FreshId | pdf-viewer-server.js:180 | a generated id starts with `pdf_` |
| PdfViewerServer.FreshIdInjective | pdf-viewer-server.js:180 | generated ids collide only when the clock reading and the random text both agree |
| PdfViewerServer.IndexOfId | pdf-viewer-server.js:188 | the first index whose record's `id` is strictly equal to the id, or -1 exactly when there is none |
| PdfViewerServer.IndexOfIdIs | pdf-viewer-server.js:188 | the first index holding the id is the one found |
| PdfViewerServer.FindRecord | pdf-viewer-server.js:205 | a record is found exactly when one has the text id, and it is the first record with it |
| PdfViewerServer.Prepared | pdf-viewer-server.js:179-185 | a falsy or missing `id` is replaced by a generated one and a truthy one kept; `uploadedBy` and `uploaded` are always overwritten; every other field is kept |
| PdfViewerServer.PreparedIdTruthy | pdf-viewer-server.js:179-181 | after the handler fills the body in, its `id` is truthy |
| PdfViewerServer.UpsertedShape | pdf-viewer-server.js:188-193 | saving an existing id keeps the length and merges the body over that record, body fields winning; a new id appends the body; all other records are untouched |
| PdfViewerServer.UpsertIdempotent | pdf-viewer-server.js:188-193 | saving the same record twice equals saving it once, unless its id is an array or object |
| PdfViewerServer.CompositeIdAppends | pdf-viewer-server.js:188 | a record whose id is an array or object matches nothing and is always appended |
| PdfViewerServer.SaveThenGet | pdf-viewer-server.js:170-212 | after a save under a text id, `get` by that id returns a record carrying every saved field |
| PdfViewerServer.NonTextIdUnseen | pdf-viewer-server.js:204-205 | a save under a non-text id leaves every `get` answer as it was |
| PdfViewerServer.ViewerRegistry.constructor | pdf-viewer-server.js:64-92 | the list starts with the three seed records |
| PdfViewerServer.ViewerRegistry.List | pdf-viewer-server.js:125-131 | 401 exactly without a session; otherwise the whole list in order |
| PdfViewerServer.ViewerRegistry.Get | pdf-viewer-server.js:199-212 | 401 exactly without a session; otherwise a record is returned exactly when one has the id, and it is the first record with it |
| PdfViewerServer.ViewerRegistry.Upload | pdf-viewer-server.js:134-167 | 401 without a session, 400 without a file, otherwise a description with a generated id, the session's user, the time, and the stored file's names, path, size and mime type; the list is not modified |
| PdfViewerServer.ViewerRegistry.Save | pdf-viewer-server.js:170-196 | 401 without a session with the list unchanged; otherwise the answer is the prepared body and the list is upserted with it |
| PdfViewerServer.ProxyApi | pdf-viewer-server.js:250-309 | URLs under `/backend` pass on untried; otherwise 1 to 3 attempts, waits of 1000·k ms after failure k, the first answer forwarded, and 502 with the last error's message and code (`UNKNOWN_ERROR` when none) exactly when all three fail |
| ErrorHandling.ClassesPartition | frontend/src/utils/errorHandling.ts:24-67 | every error falls in exactly one of the five classes |
| ErrorHandling.ClientMessage | frontend/src/utils/errorHandling.ts:50-57 | a 4xx message is the body's `detail`, else its `message`, else the body when it is text, else `Request misslyckades (<status>)`; never empty |
| ErrorHandling.ClientFallbackNamesStatus | frontend/src/utils/errorHandling.ts:56 | the status can be read back from the fallback message |
| ErrorHandling.ParseApiError | frontend/src/utils/errorHandling.ts:18-68 | the error type is network, auth, server, client or unknown exactly when the error is in that class; the status is present exactly for auth, server and client and is the answer's; each class's message and details are as written |
| ErrorHandling.TimeoutIsNetwork | frontend/src/utils/errorHandling.ts:24-29 | a timed-out request is a network error without status, whatever answer it carries |
| ErrorHandling.ClassDependsOnStatusOnly | frontend/src/utils/errorHandling.ts:31-61 | once an answer came in time, only its status decides the class and the status reported |
| DirectPdfDialog.PrevPage | frontend/src/components/DirectPDFDialog.tsx:187-191 | back one page only when past page 1; nothing else changes |
| DirectPdfDialog.NextPage | frontend/src/components/DirectPDFDialog.tsx:194-198 | forward one page only when a document is loaded and this is not its last page; nothing else changes |
| DirectPdfDialog.NavigationStaysOnValidPage | frontend/src/components/DirectPDFDialog.tsx:187-198 | from a valid page, any sequence of presses stays on a valid page of the same document |
| DirectPdfDialog.NavigationWithoutDocument | frontend/src/components/DirectPDFDialog.tsx:187-198 | without a document, the dialog stays on page 1 whatever is pressed |
| DirectPdfDialog.InitialStateIgnoresNavigation | frontend/src/components/DirectPDFDialog.tsx:33-34 | the dialog opens on page 1 with no pages, and no press moves it from there |
| DirectPdfDialog.NavigationInverse | frontend/src/components/DirectPDFDialog.tsx:187-198 | next then previous, and previous then next, return to the same state where both moves are possible |
| DirectPdfDialog.FailureText | frontend/src/components/DirectPDFDialog.tsx:96 | an error text is the failing step's label and `: `, then the failure's message, or `Okänt fel` when it has none; the render error of line 178 has the same shape |
| DirectPdfDialog.LoadPdf | frontend/src/components/DirectPDFDialog.tsx:46-99 | an empty URL fails without a try; otherwise 1 to 3 tries with waits of 1000·k ms; success exactly when one of the three tries succeeds, showing page 1 of that document; otherwise the third failure's message and the old document |
| DirectPdfDialog.LoadedThenNavigate | frontend/src/components/DirectPDFDialog.tsx:86-89 | after a successful load of a document with pages, every navigation stays within its pages |
| DirectPdfDialog.RenderPage | frontend/src/components/DirectPDFDialog.tsx:112-184 | nothing happens without a document or canvas; a page outside the document is an error without a try; otherwise 1 to 2 tries with waits of 500·k ms, rendered exactly when one of them succeeds |
| NewPdfDialog.ZoomIn | frontend/src/components/NewPDFDialog.tsx:32-34 | never above 200; plus 10 when that stays within 200, else 200 |
| NewPdfDialog.ZoomOut | frontend/src/components/NewPDFDialog.tsx:36-38 | never below 50; minus 10 when that stays within 50, else 50 |
| NewPdfDialog.ZoomStaysReachable | frontend/src/components/NewPDFDialog.tsx:29-38 | the multiples of 10 between 50 and 200 are closed under both buttons |
| NewPdfDialog.ZoomFromInitial | frontend/src/components/NewPDFDialog.tsx:29-38 | from the initial 100, every sequence of presses stays within 50..200 |
| NewPdfDialog.ZoomBoundsFixed | frontend/src/components/NewPDFDialog.tsx:33-37 | zoom-in at 200 and zoom-out at 50 change nothing |
| NewPdfDialog.ZoomRoundTrip | frontend/src/components/NewPDFDialog.tsx:32-38 | zoom-out undoes zoom-in below the top, and zoom-in undoes zoom-out above the bottom |
| NewPdfDialog.ZoomInSaturates | frontend/src/components/NewPDFDialog.tsx:32-34 | enough zoom-in presses reach 200 from any reachable level and stay there |
| FileViews.Filter | backend/files/views.py:55 | a filter keeps exactly the rows that pass |
| FileViews.FilterTwice | backend/files/views.py:88-107 | chained filters are one filter by the conjunction |
| FileViews.FilterAppend | backend/files/views.py:88-107 | a filter keeps row order: it distributes over concatenation |
| FileViews.ProjectSelector | backend/files/views.py:53-55 | a non-empty `project` selects that key, or fails when the field refuses it; absent or empty selects every project |
| FileViews.NullableSelector | backend/files/views.py:58-62 | the text `null` selects rows without a parent; another non-empty value selects that key, or fails when the field refuses it; absent or empty selects all |
| FileViews.ProjectSelects | backend/files/views.py:53-55 | what the `project` selector keeps, in terms of the parameter |
| FileViews.NullableSelects | backend/files/views.py:96-100 | what the `parent` or `directory` selector keeps, in terms of the parameter |
| FileViews.DirectoryQuery | backend/files/views.py:48-64 | the request fails exactly when a parameter is refused; otherwise the directories passing both selectors, in table order |
| FileViews.DirectoryQueryMeaning | backend/files/views.py:48-64 | a directory is listed exactly when it is in the table and matches every given parameter |
| FileViews.Lower | backend/files/views.py:103 | ASCII capitals become lower case and everything else is kept |
| FileViews.LatestOnlyCases | backend/files/views.py:103-105 | `latest_only` absent or any casing of `true` keeps only latest versions; empty, `false` or `1` keeps all |
| FileViews.FileFilter | backend/files/views.py:86-107 | exactly the files that pass the project, directory and latest-version conditions |
| FileViews.FileQuery | backend/files/views.py:86-107 | the request fails exactly when a parameter is refused; otherwise the file filter for the selectors the parameters give |
| FileViews.FileQueryMeaning | backend/files/views.py:86-107 | a file is listed exactly when it is in the table, matches every given parameter, and is latest when only latest versions are asked for |
| FileViews.FileQueryUnnarrowed | backend/files/views.py:86-107 | with no project or directory and `latest_only=false`, the listing is the whole table |
| FileViews.LatestOnlyNarrows | backend/files/views.py:103-105 | the default latest-only listing is within the all-versions listing |
| FileViews.DirectoryNarrows | backend/files/views.py:96-100 | a directory's listing is within the listing without a directory |
| FileViews.FileWithId | backend/files/views.py:117 | the row with the id, or none exactly when no row has it |
| FileViews.Predecessor | backend/files/views.py:117 | the file named by `previous_version`, or none when it has no previous version or the named row is missing |
| FileViews.SuccessorIndex | backend/files/views.py:124-125 | the position of the earliest row naming the file as its previous version, or -1 exactly when no row does |
| FileViews.Successor | backend/files/views.py:124-125 | the earliest row of the table naming the file as its previous version, or none when no row does |
| FileViews.Ancestor | backend/files/views.py:115-117 | every file reached walking back from a table row is a table row |
| FileViews.RepeatedAncestorNeverEnds | backend/files/views.py:116-117 | once the backward walk meets a file twice, every later step exists and has a previous version: the loop never ends |
| FileViews.VersionChainUnique | backend/files/views.py:119-125 | the forward walk's list is determined by its first version |
| FileViews.SuccessorIsNew | backend/files/views.py:122-125 | the next successor is not yet in the list, so the forward loop ends |
| FileViews.WalkBack | backend/files/views.py:114-117 | the first loop ends on the file `steps` links back, which has no previous version; or it reports a missing row one step further, only when that file names a previous version no row has; or a cycle, along which the loop never ends |
| FileViews.WalkForward | backend/files/views.py:119-125 | the second loop builds the version list from the first version: first successors, ending where there is none, with no file twice |
| FileViews.History | backend/files/views.py:112-125 | for a found file, a version list whose first entry is reached from the file along `previous_version`, or the cycle the walk back meets, or a broken link, reported only where a file on the way back names a previous version that no row has |
| FileViews.RequestedFile | backend/files/views.py:112 | the requested file is a row with that key that the listing's own filter keeps |
| FileViews.VersionsOf | backend/files/views.py:109-128 | a refused parameter fails the request; 404 exactly when the listing does not hold the key; otherwise the history of that file, with a broken link reported only where a file on the way back names a missing previous version |
| FileViews.RequestedFileListed | backend/files/views.py:114-125 | without branches in the history, the requested file is in its own version list, at its distance from the first version |
| FileViews.BranchedHistoryOmitsRequest | backend/files/views.py:124-125 | with two successors of one version, the list for the second successor does not hold it |

## Left out

- Express, multer and the session middleware are left out: body parsing, static files, login, logout, the session store and cookies. A session is an optional user name.
- The multer file filter (PDF mime type only) and the 10 MB size limit are left out: the handlers see a stored file or none.
- Writing uploads to disk is left out, including that multer stores the file before the session check, so an unauthenticated upload leaves a file on disk. Only the stored name is modelled.
- `fs.unlinkSync` in the delete (`basic-pdf-manager/server.js:294-301`) is left out: its outcome is caught and ignored, and the list change does not depend on it.
- Database calls are modelled only as success or failure, with no concurrency between the asynchronous writes and the requests. `savePDFFilesToDB` and `loadPDFFilesFromDB` are defined in `basic-pdf-manager/server.js` but never called there.
- The catch-all 500 answers of the upload handlers are left out (`basic-pdf-manager/server.js:228-231`, `pdf-viewer-server.js:163-166`): none of the modelled steps can throw.
- `GET /api/folders` and the login/user/logout endpoints are left out: they return constants or session data.
- `basic-pdf-manager/db/schema.js` gives only the field list of `PdfManager.Document`.
- Clock readings, `Math.random()` and its base-36 text, and `toISOString`/`toLocaleString` are parameters of the operations.
- JsText.ParseInt: numbers are unbounded integers, so texts beyond 2^53 are not rounded as JavaScript doubles would be; `-0` is read as `0`, which behaves the same under truthiness and `===`.
- PdfViewerServer.Json: JSON numbers are integers, and arrays and objects are one value, since the server only tests their truthiness and identity. Field order in records is not modelled.
- The `/api/backend` proxy (`pdf-viewer-server.js:214-248`) is left out: it is configuration of a foreign library.
- For the retrying `/api` forwarder, request headers, the 15-second timeout and the JSON flag are left out; a timeout is one more failed attempt.
- The PDF dialog's zoom is left out: it uses floating-point steps of 0.2 within 0.5..3.0 (`frontend/src/components/DirectPDFDialog.tsx:201-208`).
- The dialog's `loading` flag, the `open` guard, pdf.js, the canvas and the cleanup are left out. The 30- and 10-second timeouts of the library calls are represented as failed attempts, and so are a missing canvas or context inside the render loop.
- DirectPdfDialog.LoadPdf does not model the throw "after several attempts" (`frontend/src/components/DirectPDFDialog.tsx:90-92`): the loop leaves only with a document or by rethrowing, so that branch cannot be reached.
- The rest of `NewPDFDialog.tsx` (tabs, download, layout) is left out as user interface.
- The search and ordering filter backends of the Django views are left out. They narrow or reorder by name and date fields that the rows do not carry. `get_object` applies them too.
- The permission methods of the Django views are left out, as are the unmerged conflict block in `backend/files/views.py:16-47`, serialisation and the 500 page. A refused parameter is `Rejected`, and a `pk` the key field refuses is a 404.
- FileViews.Lower lower-cases ASCII letters only. No other character lower-cases to a letter of `true`, so the comparison it feeds is the same as Python's `str.lower`.
- FileViews.WellFormedTable asks only for unique ids, not for every `previous_version` to name an existing row. A dangling link is reported as `BrokenLink`, whereas the source's lookup raises.
- FileViews.FileWithId, FileViews.Successor and PdfManager.FindIndex state their "none" case only one way. The converse follows from their "some" case, which always names a matching row.
- FileViews.Successor, FileViews.FileWithId and the listings follow the one row order the model fixes for a table. Django gives an unordered listing no defined order and orders `first()` by primary key; the model does not require the sequence to be in primary-key order.
- ErrorHandling.ResponseData: a `detail` or `message` field that is not text (a number, a list, an object) is not modelled, and the source would use such a truthy value as the message.
- `logError` in `frontend/src/utils/errorHandling.ts` is left out: it only writes to the console.
