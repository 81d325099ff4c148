/**
 * The zoom level of the second PDF dialog (frontend/src/components/NewPDFDialog.tsx): a
 * percentage that starts at 100 and moves in steps of 10, clamped to 50..200.
 */
module NewPdfDialog {

  const InitialZoom := 100
  const MinZoom := 50
  const MaxZoom := 200
  const ZoomStep := 10

  /** `zoomIn`: `Math.min(prev + 10, 200)`. */
  function ZoomIn(zoom: int): (r: int)
    ensures r <= MaxZoom
    ensures r >= zoom || zoom > MaxZoom
    ensures zoom + ZoomStep <= MaxZoom ==> r == zoom + ZoomStep
    ensures zoom + ZoomStep > MaxZoom ==> r == MaxZoom
  {
    if zoom + ZoomStep < MaxZoom then zoom + ZoomStep else MaxZoom
  }

  /** `zoomOut`: `Math.max(prev - 10, 50)`. */
  function ZoomOut(zoom: int): (r: int)
    ensures r >= MinZoom
    ensures r <= zoom || zoom < MinZoom
    ensures zoom - ZoomStep >= MinZoom ==> r == zoom - ZoomStep
    ensures zoom - ZoomStep < MinZoom ==> r == MinZoom
  {
    if zoom - ZoomStep > MinZoom then zoom - ZoomStep else MinZoom
  }

  /** The zoom levels the dialog can reach: multiples of 10 from 50 to 200. */
  predicate Reachable(zoom: int) {
    MinZoom <= zoom <= MaxZoom && zoom % ZoomStep == 0
  }

  datatype Press = In | Out

  /** The zoom after pressing the buttons in the given order. */
  function ZoomAfter(zoom: int, presses: seq<Press>): int
    decreases |presses|
  {
    if presses == [] then zoom
    else ZoomAfter(if presses[0] == In then ZoomIn(zoom) else ZoomOut(zoom), presses[1..])
  }

  /** From any reachable level, every sequence of presses stays on reachable levels. */
  lemma {:induction false} ZoomStaysReachable(zoom: int, presses: seq<Press>)
    requires Reachable(zoom)
    ensures Reachable(ZoomAfter(zoom, presses))
    decreases |presses|
  {
    if presses != [] {
      var next := if presses[0] == In then ZoomIn(zoom) else ZoomOut(zoom);
      assert Reachable(next);
      ZoomStaysReachable(next, presses[1..]);
    }
  }

  /** Starting from the initial 100 %, the zoom never leaves 50..200. */
  lemma ZoomFromInitial(presses: seq<Press>)
    ensures MinZoom <= ZoomAfter(InitialZoom, presses) <= MaxZoom
  {
    ZoomStaysReachable(InitialZoom, presses);
  }

  /** The bounds are fixed points of the button that pushes against them. */
  lemma ZoomBoundsFixed()
    ensures ZoomIn(MaxZoom) == MaxZoom && ZoomOut(MinZoom) == MinZoom
  {
  }

  /** Below the top, zooming out undoes zooming in; above the bottom, zooming in undoes zooming out. */
  lemma ZoomRoundTrip(zoom: int)
    ensures MinZoom <= zoom <= MaxZoom - ZoomStep ==> ZoomOut(ZoomIn(zoom)) == zoom
    ensures MinZoom + ZoomStep <= zoom <= MaxZoom ==> ZoomIn(ZoomOut(zoom)) == zoom
  {
  }

  /** Enough presses of zoom-in reach the top from any reachable level, and stay there. */
  lemma {:induction false} ZoomInSaturates(zoom: int, n: nat)
    requires Reachable(zoom) && n >= (MaxZoom - zoom) / ZoomStep
    ensures ZoomAfter(zoom, seq(n, _ => In)) == MaxZoom
    decreases n
  {
    if n > 0 {
      assert seq(n, _ => In)[1..] == seq(n - 1, _ => In);
      if zoom == MaxZoom {
        ZoomInSaturates(zoom, n - 1);
      } else {
        ZoomInSaturates(ZoomIn(zoom), n - 1);
      }
    }
  }
}
