/**
 * The page state of the PDF dialog (frontend/src/components/DirectPDFDialog.tsx): which
 * document is loaded, how many pages it has and which page is shown; the guarded page
 * navigation; and the retrying loops that load the document and render the current page.
 * The PDF library is a parameter: `fetch(k)` and `draw(k)` are the outcomes of attempt `k + 1`.
 */
module DirectPdfDialog {

  import opened Wrappers
  import opened JsText

  /** The dialog's state: a document is loaded or not, its page count, the page shown, the error shown. */
  datatype ViewerState = ViewerState(loaded: bool, numPages: nat, currentPage: int, error: Option<string>)

  /** The state when the dialog is mounted: no document, no pages, page 1. */
  const InitialState := ViewerState(false, 0, 1, None)

  /** The page shown is a page of the loaded document. */
  predicate OnValidPage(s: ViewerState) {
    s.loaded && 1 <= s.currentPage <= s.numPages
  }

  // ---------------------------------------------------------------------------
  // Navigation

  /** `prevPage`: back one page unless already on page 1 or before it. */
  function PrevPage(s: ViewerState): (r: ViewerState)
    ensures s.currentPage > 1 ==> r.currentPage == s.currentPage - 1
    ensures s.currentPage <= 1 ==> r == s
    ensures r.loaded == s.loaded && r.numPages == s.numPages && r.error == s.error
  {
    if s.currentPage > 1 then s.(currentPage := s.currentPage - 1) else s
  }

  /** `nextPage`: forward one page when a document is loaded and this is not its last page. */
  function NextPage(s: ViewerState): (r: ViewerState)
    ensures s.loaded && s.currentPage < s.numPages ==> r.currentPage == s.currentPage + 1
    ensures !(s.loaded && s.currentPage < s.numPages) ==> r == s
    ensures r.loaded == s.loaded && r.numPages == s.numPages && r.error == s.error
  {
    if s.loaded && s.currentPage < s.numPages then s.(currentPage := s.currentPage + 1) else s
  }

  datatype Nav = Prev | Next

  /** The state after pressing the navigation buttons in the given order. */
  function Navigate(s: ViewerState, presses: seq<Nav>): ViewerState
    decreases |presses|
  {
    if presses == [] then s
    else Navigate(if presses[0] == Prev then PrevPage(s) else NextPage(s), presses[1..])
  }

  /** Navigation never leaves the document: a valid page stays valid through any presses. */
  lemma {:induction false} NavigationStaysOnValidPage(s: ViewerState, presses: seq<Nav>)
    requires OnValidPage(s)
    ensures OnValidPage(Navigate(s, presses))
    ensures Navigate(s, presses).numPages == s.numPages
    decreases |presses|
  {
    if presses != [] {
      var t := if presses[0] == Prev then PrevPage(s) else NextPage(s);
      assert OnValidPage(t);
      NavigationStaysOnValidPage(t, presses[1..]);
    }
  }

  /** Until a document is loaded the dialog stays on page 1 whatever is pressed. */
  lemma {:induction false} NavigationWithoutDocument(s: ViewerState, presses: seq<Nav>)
    requires !s.loaded && s.currentPage == 1
    ensures Navigate(s, presses).currentPage == 1
    decreases |presses|
  {
    if presses != [] {
      var t := if presses[0] == Prev then PrevPage(s) else NextPage(s);
      assert t == s;
      NavigationWithoutDocument(t, presses[1..]);
    }
  }

  /** Until the first load ends, the dialog's state at mount time ignores every press. */
  lemma {:induction false} InitialStateIgnoresNavigation(presses: seq<Nav>)
    ensures Navigate(InitialState, presses) == InitialState
    decreases |presses|
  {
    if presses != [] {
      assert PrevPage(InitialState) == InitialState && NextPage(InitialState) == InitialState;
      InitialStateIgnoresNavigation(presses[1..]);
    }
  }

  /** A step forward is undone by a step back, and a step back by a step forward. */
  lemma NavigationInverse(s: ViewerState)
    ensures OnValidPage(s) && s.currentPage < s.numPages ==> PrevPage(NextPage(s)) == s
    ensures OnValidPage(s) && s.currentPage > 1 ==> NextPage(PrevPage(s)) == s
  {
  }

  // ---------------------------------------------------------------------------
  // Loading the document

  /** One try of the PDF library at loading the document: its page count, or an error's message. */
  datatype LoadAttempt = LoadFailed(message: Option<string>) | LoadedDoc(pageCount: nat)

  const MaxLoadTries := 3

  const LoadFailure := "Kunde inte ladda PDF-dokumentet"

  /**
   * The error text the dialog shows: what failed, then the failure's message, or `Okänt fel`
   * when it has none.
   */
  function FailureText(what: string, message: Option<string>): (r: string)
    ensures |r| > |what| + 2 && r[..|what| + 2] == what + ": "
    ensures Given(message) ==> r[|what| + 2..] == message.value
    ensures !Given(message) ==> r[|what| + 2..] == "Okänt fel"
  {
    what + ": " + if Given(message) then message.value else "Okänt fel"
  }

  /**
   * `loadPdf`. An empty URL fails without trying. Otherwise up to three tries are made;
   * after failure `k`, for `k < 3`, the dialog waits `1000 * k` ms. The first success shows
   * its page 1; the third failure shows that failure's message and keeps the old document.
   */
  method LoadPdf(s: ViewerState, url: string, fetch: nat -> LoadAttempt)
    returns (r: ViewerState, tries: nat, delays: seq<nat>)
    ensures url == "" ==> tries == 0 && r == s.(error := Some(FailureText(LoadFailure, Some("Ingen PDF-URL tillhandahållen"))))
    ensures url != "" ==> 1 <= tries <= MaxLoadTries && |delays| == tries - 1
    ensures url == "" ==> delays == []
    ensures forall k :: 0 <= k < |delays| ==> delays[k] == 1000 * (k + 1)
    ensures forall k :: 0 <= k < tries - 1 ==> fetch(k).LoadFailed?
    ensures r.error.None? <==> url != "" && exists k :: 0 <= k < MaxLoadTries && fetch(k).LoadedDoc?
    ensures r.error.None? ==> fetch(tries - 1) == LoadedDoc(r.numPages) && r == ViewerState(true, r.numPages, 1, None)
    ensures r.error.Some? && url != "" ==>
      && tries == MaxLoadTries
      && r == s.(error := Some(FailureText(LoadFailure, fetch(2).message)))
  {
    delays := [];
    if url == "" {
      return s.(error := Some(FailureText(LoadFailure, Some("Ingen PDF-URL tillhandahållen")))), 0, delays;
    }
    var retryCount := 0;
    var pdf: Option<nat> := None;
    while retryCount < MaxLoadTries && pdf.None?
      invariant 0 <= retryCount < MaxLoadTries
      invariant forall k :: 0 <= k < retryCount ==> fetch(k).LoadFailed?
      invariant pdf.Some? ==> fetch(retryCount) == LoadedDoc(pdf.value)
      invariant |delays| == retryCount
      invariant forall k :: 0 <= k < |delays| ==> delays[k] == 1000 * (k + 1)
      decreases MaxLoadTries - retryCount, pdf.None?
    {
      match fetch(retryCount)
      case LoadedDoc(pageCount) =>
        pdf := Some(pageCount);
      case LoadFailed(message) =>
        retryCount := retryCount + 1;
        if retryCount >= MaxLoadTries {
          return s.(error := Some(FailureText(LoadFailure, message))), retryCount, delays;
        }
        delays := delays + [1000 * retryCount];
    }
    r := ViewerState(true, pdf.value, 1, None);
    tries := retryCount + 1;
  }

  /**
   * After a successful load of a document with pages, the page shown is one of its pages,
   * whatever navigation follows.
   */
  lemma LoadedThenNavigate(pageCount: nat, presses: seq<Nav>)
    requires pageCount >= 1
    ensures OnValidPage(Navigate(ViewerState(true, pageCount, 1, None), presses))
    ensures Navigate(ViewerState(true, pageCount, 1, None), presses).numPages == pageCount
  {
    NavigationStaysOnValidPage(ViewerState(true, pageCount, 1, None), presses);
  }

  // ---------------------------------------------------------------------------
  // Rendering the current page

  datatype RenderAttempt = RenderFailed(message: Option<string>) | RenderDone

  datatype RenderOutcome = Skipped | RenderError(text: string) | Rendered(page: int)

  const MaxRenderTries := 2

  const RenderFailure := "Kunde inte visa sidan"

  /** The message for a page outside the document. */
  function InvalidPageMessage(page: int, numPages: nat): string {
    "Ogiltig sida: " + IntText(page) + ". Dokumentet har " + IntText(numPages) + " sidor."
  }

  /**
   * `renderPage`. Without a document or a canvas nothing happens. A page outside the
   * document is an error and is not tried. Otherwise up to two tries are made, waiting
   * `500 * k` ms after failure `k` when another try follows.
   */
  method RenderPage(s: ViewerState, hasCanvas: bool, draw: nat -> RenderAttempt)
    returns (outcome: RenderOutcome, tries: nat, delays: seq<nat>)
    ensures outcome.Skipped? <==> !s.loaded || !hasCanvas
    ensures outcome.Rendered? ==> OnValidPage(s) && outcome.page == s.currentPage
    ensures (outcome.Skipped? || !OnValidPage(s)) ==> tries == 0 && delays == []
    ensures s.loaded && hasCanvas && !OnValidPage(s) ==>
      outcome == RenderError(FailureText(RenderFailure, Some(InvalidPageMessage(s.currentPage, s.numPages))))
    ensures OnValidPage(s) && hasCanvas ==> 1 <= tries <= MaxRenderTries && |delays| == tries - 1
    ensures forall k :: 0 <= k < |delays| ==> delays[k] == 500 * (k + 1)
    ensures forall k :: 0 <= k < tries - 1 ==> draw(k).RenderFailed?
    ensures OnValidPage(s) && hasCanvas ==>
      (outcome.Rendered? <==> exists k :: 0 <= k < MaxRenderTries && draw(k).RenderDone?)
    ensures OnValidPage(s) && hasCanvas && outcome.Rendered? ==> draw(tries - 1).RenderDone?
    ensures OnValidPage(s) && hasCanvas && !outcome.Rendered? ==>
      tries == MaxRenderTries && outcome == RenderError(FailureText(RenderFailure, draw(1).message))
  {
    delays := [];
    if !s.loaded || !hasCanvas {
      return Skipped, 0, delays;
    }
    if s.currentPage < 1 || s.currentPage > s.numPages {
      return RenderError(FailureText(RenderFailure, Some(InvalidPageMessage(s.currentPage, s.numPages)))), 0, delays;
    }
    var renderRetryCount := 0;
    var rendered := false;
    while renderRetryCount < MaxRenderTries && !rendered
      invariant 0 <= renderRetryCount < MaxRenderTries
      invariant forall k :: 0 <= k < renderRetryCount ==> draw(k).RenderFailed?
      invariant rendered ==> draw(renderRetryCount).RenderDone?
      invariant |delays| == renderRetryCount
      invariant forall k :: 0 <= k < |delays| ==> delays[k] == 500 * (k + 1)
      decreases MaxRenderTries - renderRetryCount, !rendered
    {
      match draw(renderRetryCount)
      case RenderDone =>
        rendered := true;
      case RenderFailed(message) =>
        renderRetryCount := renderRetryCount + 1;
        if renderRetryCount >= MaxRenderTries {
          return RenderError(FailureText(RenderFailure, message)), renderRetryCount, delays;
        }
        delays := delays + [500 * renderRetryCount];
    }
    outcome := Rendered(s.currentPage);
    tries := renderRetryCount + 1;
  }
}
