/** Live capture of another application's window: choosing a backend,
    locating the window by title, grabbing it and mapping the grab onto the
    display with the zoom transform. Screen grabs are parameters; the zoom
    factor is an integer percent (150 means 1.5x). */
module WindowCapture {
  import opened Wrappers
  import opened Text
  import opened Images

  // ---------------------------------------------------------------------
  // The zoom transform (`_apply_scaling`)
  // ---------------------------------------------------------------------

  /** `int(target * scale)` for a non-negative size and a percent scale. */
  function ScaledSize(target: nat, pct: nat): nat {
    target * pct / 100
  }

  /** Where the crop box starts for a zoom-in, and where the paste goes for
      a zoom-out: half the size difference, rounded down. */
  function CenterOffset(larger: int, smaller: int): int {
    (larger - smaller) / 2
  }

  /** Zooming in never shrinks, zooming out never grows, so the crop box and
      the paste offset are always computable. */
  lemma ScaledSizeOrder(t: nat, pct: nat)
    ensures pct > 100 ==> ScaledSize(t, pct) >= t
    ensures pct < 100 ==> ScaledSize(t, pct) <= t
    ensures pct == 100 ==> ScaledSize(t, pct) == t
  {
  }

  /** The zoom transform: the captured image mapped onto a `tw` x `th` RGBA
      buffer. `None` stands for the exception PIL raises when a resize target
      has a zero side; `capture_frame` turns it into "no frame".
      At 100% every output pixel is the resample's pixel at the same place.
      Zooming in, the output is the centre of the zoomed image: the crop box
      lies inside it and output pixel `(x, y)` is its pixel shifted by the
      crop origin. Zooming out, the zoomed image sits wholly inside the output
      at the centred offset; pixels under it come from it and every other
      pixel is opaque black. */
  function ApplyScaling(img: Image, tw: nat, th: nat, pct: nat): (r: Option<Image>)
    ensures r.Some? <==> ScaledSize(tw, pct) > 0 && ScaledSize(th, pct) > 0
    ensures r.Some? ==> Width(r.value) == tw && Height(r.value) == th && ModeOf(r.value) == Rgba
    ensures pct == 100 && r.Some? ==>
              forall x, y :: PixelAt(r.value, x, y) == Sampled(Resized(img, tw, th), x, y)
    ensures pct > 100 && r.Some? ==>
              var sw := ScaledSize(tw, pct);
              var sh := ScaledSize(th, pct);
              var left := CenterOffset(sw, tw);
              var top := CenterOffset(sh, th);
              && 0 <= left && left + tw <= sw && 0 <= top && top + th <= sh
              && forall x, y :: 0 <= x < tw && 0 <= y < th ==>
                   PixelAt(r.value, x, y) == Sampled(Resized(img, sw, sh), x + left, y + top)
    ensures pct < 100 && r.Some? ==>
              var sw := ScaledSize(tw, pct);
              var sh := ScaledSize(th, pct);
              var px := CenterOffset(tw, sw);
              var py := CenterOffset(th, sh);
              && 0 <= px && px + sw <= tw && 0 <= py && py + sh <= th
              && forall x, y :: 0 <= x < tw && 0 <= y < th ==>
                   if px <= x < px + sw && py <= y < py + sh
                   then PixelAt(r.value, x, y) == Sampled(Resized(img, sw, sh), x - px, y - py)
                   else PixelAt(r.value, x, y) == Solid(OpaqueBlack)
  {
    var sw := ScaledSize(tw, pct);
    var sh := ScaledSize(th, pct);
    ScaledSizeOrder(tw, pct);
    ScaledSizeOrder(th, pct);
    if pct == 100 then
      if sw == 0 || sh == 0 then None else Some(ToRgba(Resized(img, tw, th)))
    else if sw == 0 || sh == 0 then None
    else if pct > 100 then
      Some(ToRgba(ZoomIn(img, tw, th, sw, sh)))
    else
      Some(ToRgba(ZoomOut(img, tw, th, sw, sh)))
  }

  /** The zoomed image cropped to the output size around its centre. */
  function ZoomIn(img: Image, tw: nat, th: nat, sw: nat, sh: nat): (r: Image)
    requires tw <= sw && th <= sh
    ensures Width(r) == tw && Height(r) == th
    ensures 0 <= CenterOffset(sw, tw) && CenterOffset(sw, tw) + tw <= sw
    ensures 0 <= CenterOffset(sh, th) && CenterOffset(sh, th) + th <= sh
    ensures forall x, y :: 0 <= x < tw && 0 <= y < th ==>
              PixelAt(r, x, y) == Sampled(Resized(img, sw, sh), x + CenterOffset(sw, tw), y + CenterOffset(sh, th))
  {
    var left := CenterOffset(sw, tw);
    var top := CenterOffset(sh, th);
    Cropped(Resized(img, sw, sh), left, top, left + tw, top + th)
  }

  /** The zoomed image pasted in the middle of an opaque black canvas. */
  function ZoomOut(img: Image, tw: nat, th: nat, sw: nat, sh: nat): (r: Image)
    requires sw <= tw && sh <= th
    ensures Width(r) == tw && Height(r) == th && ModeOf(r) == Rgba
    ensures 0 <= CenterOffset(tw, sw) && CenterOffset(tw, sw) + sw <= tw
    ensures 0 <= CenterOffset(th, sh) && CenterOffset(th, sh) + sh <= th
    ensures forall x, y :: 0 <= x < tw && 0 <= y < th ==>
              var px := CenterOffset(tw, sw);
              var py := CenterOffset(th, sh);
              if px <= x < px + sw && py <= y < py + sh
              then PixelAt(r, x, y) == Sampled(Resized(img, sw, sh), x - px, y - py)
              else PixelAt(r, x, y) == Solid(OpaqueBlack)
  {
    Pasted(Canvas(tw, th, Rgba, OpaqueBlack), Resized(img, sw, sh), CenterOffset(tw, sw), CenterOffset(th, sh))
  }

  /** 320x240 at 2.0x: zoomed to 640x480, cropped from (160, 120). */
  lemma ZoomInExample(img: Image)
    ensures ScaledSize(320, 200) == 640 && ScaledSize(240, 200) == 480
    ensures ApplyScaling(img, 320, 240, 200)
            == Some(ToRgba(Cropped(Resized(img, 640, 480), 160, 120, 480, 360)))
  {
  }

  /** 320x240 at 0.5x: zoomed to 160x120, pasted at (80, 60) on black. */
  lemma ZoomOutExample(img: Image)
    ensures ScaledSize(320, 50) == 160 && ScaledSize(240, 50) == 120
    ensures ApplyScaling(img, 320, 240, 50)
            == Some(Pasted(Canvas(320, 240, Rgba, OpaqueBlack), Resized(img, 160, 120), 80, 60))
  {
    var out := Pasted(Canvas(320, 240, Rgba, OpaqueBlack), Resized(img, 160, 120), 80, 60);
    assert ModeOf(out) == Rgba;
    assert ToRgba(out) == out;
  }

  // ---------------------------------------------------------------------
  // Locating the window
  // ---------------------------------------------------------------------

  datatype Rect = Rect(left: int, top: int, width: int, height: int)

  /** One X11 window as the search sees it. `nameReadable`, `geometry` and
      `treeReadable` say whether `get_wm_name`, `get_geometry` and
      `query_tree` succeed; a failing call raises inside the search. */
  datatype XWindow = XWindow(
    nameReadable: bool,
    name: Option<string>,
    geometry: Option<Rect>,
    treeReadable: bool,
    children: seq<XWindow>)

  /** `window_name and title.lower() in window_name.lower()`. */
  predicate Matches(title: string, w: XWindow) {
    w.nameReadable && w.name.Some? && |w.name.value| > 0
    && Contains(Lower(w.name.value), Lower(title))
  }

  /** `search_windows`: a matching window answers with its geometry (and its
      children are not searched); otherwise the children are searched in
      order and the first answer wins. Any failing X call ends the search of
      that subtree with no answer. */
  function SearchWindows(title: string, w: XWindow): Option<Rect>
    decreases w, |w.children| + 1
  {
    if !w.nameReadable then None
    else if Matches(title, w) then w.geometry
    else if !w.treeReadable then None
    else SearchChildren(title, w, 0)
  }

  function SearchChildren(title: string, parent: XWindow, i: nat): Option<Rect>
    requires i <= |parent.children|
    decreases parent, |parent.children| - i
  {
    if i == |parent.children| then None
    else
      match SearchWindows(title, parent.children[i])
      case Some(r) => Some(r)
      case None => SearchChildren(title, parent, i + 1)
  }

  /** Reference definition: the matching windows the search reaches, in
      depth-first pre-order, below a window whose own name is readable and
      does not match. */
  function Reached(title: string, w: XWindow): seq<XWindow>
    decreases w, |w.children| + 1
  {
    if !w.nameReadable then []
    else if Matches(title, w) then [w]
    else if !w.treeReadable then []
    else ReachedFrom(title, w, 0)
  }

  function ReachedFrom(title: string, parent: XWindow, i: nat): seq<XWindow>
    requires i <= |parent.children|
    decreases parent, |parent.children| - i
  {
    if i == |parent.children| then []
    else Reached(title, parent.children[i]) + ReachedFrom(title, parent, i + 1)
  }

  /** The geometry of the first window in `ws` whose geometry can be read. */
  function FirstGeometry(ws: seq<XWindow>): Option<Rect> {
    if |ws| == 0 then None
    else if ws[0].geometry.Some? then ws[0].geometry
    else FirstGeometry(ws[1..])
  }

  lemma {:induction false} FirstGeometryAppend(a: seq<XWindow>, b: seq<XWindow>)
    ensures FirstGeometry(a + b) == if FirstGeometry(a).Some? then FirstGeometry(a) else FirstGeometry(b)
  {
    if |a| > 0 {
      assert (a + b)[1..] == a[1..] + b;
      FirstGeometryAppend(a[1..], b);
    } else {
      assert a + b == b;
    }
  }

  /** Every window the reference definition lists does match the title. */
  lemma {:induction false} ReachedAllMatch(title: string, w: XWindow)
    ensures forall k :: 0 <= k < |Reached(title, w)| ==> Matches(title, Reached(title, w)[k])
    decreases w, |w.children| + 1
  {
    if w.nameReadable && !Matches(title, w) && w.treeReadable {
      ReachedFromAllMatch(title, w, 0);
    }
  }

  lemma {:induction false} ReachedFromAllMatch(title: string, parent: XWindow, i: nat)
    requires i <= |parent.children|
    ensures forall k :: 0 <= k < |ReachedFrom(title, parent, i)| ==> Matches(title, ReachedFrom(title, parent, i)[k])
    decreases parent, |parent.children| - i
  {
    if i < |parent.children| {
      ReachedAllMatch(title, parent.children[i]);
      ReachedFromAllMatch(title, parent, i + 1);
    }
  }

  /** The search answers with the geometry of the first reachable matching
      window, in pre-order, whose geometry can be read. */
  lemma {:induction false} SearchIsFirstMatch(title: string, w: XWindow)
    ensures SearchWindows(title, w) == FirstGeometry(Reached(title, w))
    decreases w, |w.children| + 1
  {
    if w.nameReadable && !Matches(title, w) && w.treeReadable {
      SearchChildrenIsFirstMatch(title, w, 0);
    } else if w.nameReadable && Matches(title, w) {
      assert Reached(title, w) == [w];
      assert FirstGeometry([w]) == w.geometry;
    }
  }

  lemma {:induction false} SearchChildrenIsFirstMatch(title: string, parent: XWindow, i: nat)
    requires i <= |parent.children|
    ensures SearchChildren(title, parent, i) == FirstGeometry(ReachedFrom(title, parent, i))
    decreases parent, |parent.children| - i
  {
    if i < |parent.children| {
      SearchIsFirstMatch(title, parent.children[i]);
      SearchChildrenIsFirstMatch(title, parent, i + 1);
      FirstGeometryAppend(Reached(title, parent.children[i]), ReachedFrom(title, parent, i + 1));
    }
  }

  /** A window whose readable name matches answers for its whole subtree:
      its children are never consulted. */
  lemma MatchingRootAnswers(title: string, w: XWindow)
    requires Matches(title, w)
    ensures SearchWindows(title, w) == w.geometry
  {
  }

  // ---------------------------------------------------------------------
  // Backends, `find_window` and `capture_frame`
  // ---------------------------------------------------------------------

  datatype Platform = Windows | Linux | OtherPlatform

  /** The backend names `find_window` and `capture_frame` dispatch on; the
      constructor only ever selects the first three. */
  datatype Backend = Mss | PyGetWindow | Xlib | Unrecognized(name: string)

  datatype CaptureError =
    | ZeroFps                // `1.0 / fps` raises ZeroDivisionError
    | UnsupportedPlatform    // neither Windows nor Linux
    | NoBackendInstalled     // the platform's capture packages cannot be imported
    | DisplayUnavailable     // python-xlib cannot open the X display

  /** The capture object after construction. `frameInterval` is `1 / fps`
      seconds. */
  datatype Capturer = Capturer(
    title: string, targetWidth: nat, targetHeight: nat,
    fps: int, frameInterval: real, scalePct: nat, backend: Backend)

  /** What the host offers a capture: its platform, which capture packages
      import, and whether python-xlib can open the X display. */
  datatype CaptureHost = CaptureHost(
    platform: Platform, hasMss: bool, hasPyGetWindow: bool, hasXlib: bool, displayOpens: bool)

  /** `WindowCapture.__init__`: the interval is computed first, then the
      platform's backends are tried in order (mss before pygetwindow on
      Windows; python-xlib on Linux). */
  function NewCapturer(title: string, tw: nat, th: nat, fps: int, scalePct: nat, host: CaptureHost)
    : (r: Result<Capturer, CaptureError>)
    ensures fps == 0 <==> r == Err(ZeroFps)
    ensures r.Ok? ==> r.value.frameInterval * (fps as real) == 1.0
    ensures r.Ok? ==> r.value.backend == (if host.platform == Linux then Xlib else if host.hasMss then Mss else PyGetWindow)
    ensures r.Ok? ==> r.value.title == title && r.value.scalePct == scalePct
                      && r.value.targetWidth == tw && r.value.targetHeight == th
    ensures fps != 0 ==>
              (r.Ok? <==> (host.platform == Windows && (host.hasMss || host.hasPyGetWindow))
                          || (host.platform == Linux && host.hasXlib && host.displayOpens))
    ensures host.platform == OtherPlatform && fps != 0 ==> r == Err(UnsupportedPlatform)
  {
    if fps == 0 then Err(ZeroFps)
    else
      var interval := 1.0 / (fps as real);
      match host.platform
      case Windows =>
        if host.hasMss then Ok(Capturer(title, tw, th, fps, interval, scalePct, Mss))
        else if host.hasPyGetWindow then Ok(Capturer(title, tw, th, fps, interval, scalePct, PyGetWindow))
        else Err(NoBackendInstalled)
      case Linux =>
        if !host.hasXlib then Err(NoBackendInstalled)
        else if !host.displayOpens then Err(DisplayUnavailable)
        else Ok(Capturer(title, tw, th, fps, interval, scalePct, Xlib))
      case OtherPlatform => Err(UnsupportedPlatform)
  }

  /** What the desktop looks like to each backend at one instant:
      `titled` is what pygetwindow's title lookup returns (`None` when it
      raises); `root` is the X11 root window (`None` when the display cannot
      be queried). */
  datatype Desktop = Desktop(titled: Option<seq<Rect>>, root: Option<XWindow>)

  /** `find_window`: the first window pygetwindow lists for the Windows
      backends, the tree search for python-xlib. Every failure is `None`. */
  function FindWindow(c: Capturer, d: Desktop): (r: Option<Rect>)
    ensures c.backend.Unrecognized? ==> r.None?
    ensures (c.backend == Mss || c.backend == PyGetWindow) ==>
              r == (if d.titled.Some? && |d.titled.value| > 0 then Some(d.titled.value[0]) else None)
    ensures c.backend == Xlib ==>
              r == (if d.root.Some? then FirstGeometry(Reached(c.title, d.root.value)) else None)
  {
    match c.backend
    case Unrecognized(_) => None
    case Mss | PyGetWindow =>
      if d.titled.Some? && |d.titled.value| > 0 then Some(d.titled.value[0]) else None
    case Xlib =>
      if d.root.Some? then
        SearchIsFirstMatch(c.title, d.root.value);
        SearchWindows(c.title, d.root.value)
      else None
  }

  /** `capture_frame`: find the window, grab it (`grab` answers `None` when
      the platform call raises, or when scrot leaves no file) and apply the
      zoom transform; a failing resize is caught like a failing grab. Any failure is
      "no frame", never an error. */
  function CaptureFrame(c: Capturer, d: Desktop, grab: Rect -> Option<Image>): (r: Option<Image>)
    ensures FindWindow(c, d).None? ==> r.None?
    ensures FindWindow(c, d).Some? && grab(FindWindow(c, d).value).None? ==> r.None?
    ensures r.Some? ==> Width(r.value) == c.targetWidth && Height(r.value) == c.targetHeight
                        && ModeOf(r.value) == Rgba
    ensures FindWindow(c, d).Some? && grab(FindWindow(c, d).value).Some?
            && ScaledSize(c.targetWidth, c.scalePct) > 0 && ScaledSize(c.targetHeight, c.scalePct) > 0
            ==> r.Some?
  {
    match FindWindow(c, d)
    case None => None
    case Some(rect) =>
      match grab(rect)
      case None => None
      case Some(raw) => ApplyScaling(raw, c.targetWidth, c.targetHeight, c.scalePct)
  }
}
