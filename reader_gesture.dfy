/** The reader's gesture state: whether the bars are shown, and the zoom
    and pan applied to the page. Every method keeps the zoom inside its
    range and the page centred whenever it is not zoomed in. */
module ReaderGesture {
  import opened Numeric

  const MinScale: real := 1.0
  const MaxScale: real := 3.0

  /** How far the page may be panned sideways: half of the width the zoom
      adds to the container. */
  function PanLimitX(containerWidth: real, scale: real): (limit: real)
    ensures 0.0 <= containerWidth && MinScale <= scale ==> 0.0 <= limit
    ensures scale == MinScale ==> limit == 0.0
  {
    containerWidth * (scale - 1.0) / 2.0
  }

  /** How far the page may be panned up or down. Once the content size is
      known, the limit is how far half the zoomed page, fitted to the
      container's width, overhangs half the container, and never negative;
      before that, it is half of the height the zoom adds to the container. */
  function PanLimitY(containerWidth: real, containerHeight: real, scale: real,
                     contentWidth: real, contentHeight: real): (limit: real)
    ensures 0.0 < contentWidth && 0.0 < contentHeight ==> 0.0 <= limit
    ensures 0.0 <= containerHeight && MinScale <= scale ==> 0.0 <= limit
    ensures !(0.0 < contentWidth && 0.0 < contentHeight) ==> limit == PanLimitX(containerHeight, scale)
  {
    if contentWidth > 0.0 && contentHeight > 0.0 then
      var renderedImageHeight := containerWidth * contentHeight / contentWidth;
      var overhang := scale * renderedImageHeight / 2.0 - containerHeight / 2.0;
      if overhang < 0.0 then 0.0 else overhang
    else
      containerHeight * (scale - 1.0) / 2.0
  }

  /** A zoomed page that still fits the container's height cannot be
      panned vertically; one that overhangs can be panned by the overhang. */
  lemma PanLimitYFitted(containerWidth: real, containerHeight: real, scale: real,
                        contentWidth: real, contentHeight: real)
    requires 0.0 < contentWidth && 0.0 < contentHeight
    ensures var zoomedHeight := scale * (containerWidth * contentHeight / contentWidth);
            (zoomedHeight <= containerHeight ==>
               PanLimitY(containerWidth, containerHeight, scale, contentWidth, contentHeight) == 0.0) &&
            (containerHeight < zoomedHeight ==>
               PanLimitY(containerWidth, containerHeight, scale, contentWidth, contentHeight)
               == (zoomedHeight - containerHeight) / 2.0)
  {
  }

  class ReaderGestureState {
    var areBarsVisible: bool
    var scale: real
    var offsetX: real
    var offsetY: real
    var contentWidth: real
    var contentHeight: real

    /** The zoom lies in [MinScale, MaxScale], and an unzoomed page is
        centred. */
    predicate Valid()
      reads this
    {
      MinScale <= scale <= MaxScale && (scale <= MinScale ==> offsetX == 0.0 && offsetY == 0.0)
    }

    /** A fresh state: bars hidden, page unzoomed and centred, content size
        unknown. */
    constructor()
      ensures Valid()
      ensures !areBarsVisible && scale == MinScale && offsetX == 0.0 && offsetY == 0.0
      ensures contentWidth == 0.0 && contentHeight == 0.0
    {
      areBarsVisible := false;
      scale := 1.0;
      offsetX, offsetY := 0.0, 0.0;
      contentWidth, contentHeight := 0.0, 0.0;
    }

    /** `isZoomed`: the page is magnified; a valid state that is not zoomed
        shows the page centred. */
    function IsZoomed(): (zoomed: bool)
      reads this
      ensures zoomed <==> MinScale < scale
      ensures Valid() && !zoomed ==> offsetX == 0.0 && offsetY == 0.0
    {
      scale > 1.0
    }

    /** Records the size of the page's image. */
    method SetContentSize(width: real, height: real)
      requires Valid()
      modifies this
      ensures Valid()
      ensures contentWidth == width && contentHeight == height
      ensures areBarsVisible == old(areBarsVisible) && scale == old(scale)
      ensures offsetX == old(offsetX) && offsetY == old(offsetY)
    {
      contentWidth := width;
      contentHeight := height;
    }

    /** Shows the bars if hidden and hides them if shown. */
    method ToggleBars()
      requires Valid()
      modifies this
      ensures Valid()
      ensures areBarsVisible == !old(areBarsVisible)
      ensures scale == old(scale) && offsetX == old(offsetX) && offsetY == old(offsetY)
      ensures contentWidth == old(contentWidth) && contentHeight == old(contentHeight)
    {
      areBarsVisible := !areBarsVisible;
    }

    /** Multiplies the zoom by `zoomChange`, clamped into [MinScale,
        MaxScale]; zooming back out to the minimum re-centres the page,
        any other zoom keeps the pan. */
    method OnZoom(zoomChange: real)
      requires Valid()
      modifies this
      ensures Valid()
      ensures scale == ClampReal(old(scale) * zoomChange, MinScale, MaxScale)
      ensures scale <= MinScale ==> offsetX == 0.0 && offsetY == 0.0
      ensures MinScale < scale ==> offsetX == old(offsetX) && offsetY == old(offsetY)
      ensures areBarsVisible == old(areBarsVisible)
      ensures contentWidth == old(contentWidth) && contentHeight == old(contentHeight)
    {
      scale := ClampReal(scale * zoomChange, MinScale, MaxScale);
      if !IsZoomed() {
        offsetX := 0.0;
        offsetY := 0.0;
      }
    }

    /** Returns to the unzoomed, centred page. */
    method ResetZoom()
      requires Valid()
      modifies this
      ensures Valid() && !IsZoomed()
      ensures scale == MinScale && offsetX == 0.0 && offsetY == 0.0
      ensures areBarsVisible == old(areBarsVisible)
      ensures contentWidth == old(contentWidth) && contentHeight == old(contentHeight)
    {
      scale := MinScale;
      offsetX := 0.0;
      offsetY := 0.0;
    }

    /** Pans a zoomed page by (`panX`, `panY`), keeping each offset within
        its limit; an unzoomed page does not move. Clamping into a range
        whose limit is negative throws, so the container sides the limits
        are computed from must not be negative. */
    method OnPan(panX: real, panY: real, containerWidth: real, containerHeight: real)
      requires Valid()
      requires IsZoomed() ==> 0.0 <= containerWidth
      requires IsZoomed() && !(0.0 < contentWidth && 0.0 < contentHeight) ==> 0.0 <= containerHeight
      modifies this
      ensures Valid()
      ensures areBarsVisible == old(areBarsVisible) && scale == old(scale)
      ensures contentWidth == old(contentWidth) && contentHeight == old(contentHeight)
      ensures !old(IsZoomed()) ==> offsetX == old(offsetX) && offsetY == old(offsetY)
      ensures old(IsZoomed()) ==>
                var limitX := PanLimitX(containerWidth, scale);
                var limitY := PanLimitY(containerWidth, containerHeight, scale, contentWidth, contentHeight);
                offsetX == ClampReal(old(offsetX) + panX, -limitX, limitX) &&
                offsetY == ClampReal(old(offsetY) + panY, -limitY, limitY) &&
                -limitX <= offsetX <= limitX && -limitY <= offsetY <= limitY
    {
      if !IsZoomed() {
        return;
      }
      var maxOffsetX := PanLimitX(containerWidth, scale);
      var maxOffsetY := PanLimitY(containerWidth, containerHeight, scale, contentWidth, contentHeight);
      offsetX := ClampReal(offsetX + panX, -maxOffsetX, maxOffsetX);
      offsetY := ClampReal(offsetY + panY, -maxOffsetY, maxOffsetY);
    }
  }

  /** Toggling the bars twice restores them and touches nothing else. */
  method ToggleBarsTwice(state: ReaderGestureState)
    requires state.Valid()
    modifies state
    ensures state.Valid()
    ensures state.areBarsVisible == old(state.areBarsVisible)
    ensures state.scale == old(state.scale)
    ensures state.offsetX == old(state.offsetX) && state.offsetY == old(state.offsetY)
    ensures state.contentWidth == old(state.contentWidth) && state.contentHeight == old(state.contentHeight)
  {
    state.ToggleBars();
    state.ToggleBars();
  }

  /** Bars start hidden, the first toggle shows them and the second hides
      them again. */
  method BarsScenario() returns (initially: bool, afterOne: bool, afterTwo: bool)
    ensures !initially && afterOne && !afterTwo
  {
    var state := new ReaderGestureState();
    initially := state.areBarsVisible;
    state.ToggleBars();
    afterOne := state.areBarsVisible;
    state.ToggleBars();
    afterTwo := state.areBarsVisible;
  }

  /** Zooming a 400 x 800 view to 2x lets the page move at most 200 to
      either side, so a long pan stops there; a pinch far past the minimum
      zoom lands on it and re-centres the page. */
  method ZoomPanScenario() returns (zoomed: real, panned: real, unzoomed: real, recentred: real)
    ensures zoomed == 2.0 && panned == 200.0
    ensures unzoomed == MinScale && recentred == 0.0
  {
    var state := new ReaderGestureState();
    state.OnZoom(2.0);
    zoomed := state.scale;
    state.OnPan(1000.0, 0.0, 400.0, 800.0);
    panned := state.offsetX;
    state.OnZoom(0.1);
    unzoomed := state.scale;
    recentred := state.offsetX;
  }
}
