/** `shrink_to_target`: after the first search, shrink the image step by
    step and redo the quality descent at each size until an encoding fits or
    a side reaches the floor. */
module ResizeLoop {
  import opened Wrappers
  import opened Imaging
  import opened QualityDescent
  import opened FormatDispatch

  /** The default floor, `min_size=(640, 640)`. */
  const DefaultMinSide: nat := 640

  function Max(a: int, b: int): int
  {
    if a >= b then a else b
  }

  /** Python's `int()` on a float: truncation toward zero. */
  function Trunc(x: real): (n: int)
    ensures 0.0 <= x ==> n as real <= x < n as real + 1.0
    ensures x < 0.0 ==> n as real - 1.0 < x <= n as real
  {
    if x >= 0.0 then x.Floor else -((-x).Floor)
  }

  /** Lines 153-156: cap the raw factor at 0.95, and replace a capped factor
      of at most 0.5 by 0.6. The result always lies in (0.5, 0.95]. */
  function ClampFactor(raw: real): (f: real)
    ensures 0.5 < f <= 0.95
    ensures raw <= 0.5 ==> f == 0.6
    ensures 0.5 < raw <= 0.95 ==> f == raw
    ensures 0.95 < raw ==> f == 0.95
  {
    var capped := if raw <= 0.95 then raw else 0.95;
    if capped <= 0.5 then 0.6 else capped
  }

  /** Lines 158-161: scale both sides by the factor, truncate, raise each to
      its floor, and fall back to a flat 0.9 step when a side did not shrink.
      For a capped factor and sides above their floors both sides shrink
      strictly and stay at or above the floor, so the 0.9 fallback is never
      taken. */
  function NextSize(w: int, h: int, factor: real, minW: nat, minH: nat): (r: (int, int))
    ensures minW < w && minH < h && factor <= 0.95 ==>
      r == (Max(minW, Trunc(w as real * factor)), Max(minH, Trunc(h as real * factor)))
    ensures minW < w && minH < h && factor <= 0.95 ==>
      minW <= r.0 < w && minH <= r.1 < h
  {
    ScaledSideShrinks(w, factor);
    ScaledSideShrinks(h, factor);
    var nw := Max(minW, Trunc(w as real * factor));
    var nh := Max(minH, Trunc(h as real * factor));
    if nw >= w || nh >= h then (Trunc(w as real * 0.9), Trunc(h as real * 0.9)) else (nw, nh)
  }

  /** A positive side scaled by a factor of at most 0.95 and truncated is
      strictly shorter. */
  lemma ScaledSideShrinks(w: int, factor: real)
    ensures 0 < w && factor <= 0.95 ==> Trunc(w as real * factor) < w
  {
  }

  /** The flat 0.9 fallback, were it taken, could cross the floor: a side of
      641 pixels would become 576. */
  lemma ForcedStepCanCrossFloor()
    ensures Trunc(641 as real * 0.9) == 576 < DefaultMinSide
  {
  }

  /** Where the loop stopped: the bytes and extension returned, and the
      image it had reached. */
  datatype Stop = Stop(result: Encoded, at: Image)

  /** The `while True` loop of lines 145-193 from one state (current image,
      `last` bytes, extension), as a reference definition. */
  function Run(enc: Encoder, resize: Resizer, rawFactor: (int, int) -> real,
               cur: Image, last: Bytes, ext: string, target: int, minW: nat, minH: nat): Stop
    requires ResizesExactly(resize)
    requires target >= 0
    decreases cur.width
  {
    if cur.width <= minW || cur.height <= minH then Stop(Encoded(last, ext), cur)
    else
      var factor := ClampFactor(rawFactor(target, Max(1, |last|)));
      var size := NextSize(cur.width, cur.height, factor, minW, minH);
      var next := resize(cur, size.0, size.1);
      var c := ContainerFor(next);
      var atts := Attempts(enc, next, c);
      match FirstFit(atts, target)
      case Some(k) => Stop(Encoded(atts[k].value, Extension(c)), next)
      case None =>
        var last' := NewLast(Smallest(atts), last);
        if |last'| > 0 && |last'| <= target then Stop(Encoded(last', Extension(c)), next)
        else Run(enc, resize, rawFactor, next, last', Extension(c), target, minW, minH)
  }

  /** `last = best if best else last`: an empty or missing best keeps last. */
  function NewLast(best: Option<Bytes>, last: Bytes): Bytes
  {
    if best.Some? && |best.value| > 0 then best.value else last
  }

  /** What `shrink_to_target` returns: None when the first search had
      nothing at all (the exception of line 129), the first search's result
      when it fits, and otherwise where the loop stops. */
  function Shrunk(enc: Encoder, resize: Resizer, normalize: Image -> Image, rawFactor: (int, int) -> real,
                  img: Image, target: int, minW: nat, minH: nat): Option<Encoded>
    requires ResizesExactly(resize)
    requires target >= 0
  {
    var im := normalize(img);
    match SearchOnce(enc, im, FormatName(im), target)
    case None => None
    case Some(first) =>
      if |first.data| <= target then Some(first)
      else Some(Run(enc, resize, rawFactor, im, first.data, first.ext, target, minW, minH).result)
  }

  /** photo_resize.py lines 131-193. `normalize` is `exif_safe`, `rawFactor`
      the square-root rule of line 152 before its clamps; `minW` and `minH`
      are `min_size`, which the source's only caller leaves at its default
      of DefaultMinSide on both sides. */
  method ShrinkToTarget(enc: Encoder, resize: Resizer, normalize: Image -> Image,
                        rawFactor: (int, int) -> real, img: Image, target: int, minW: nat, minH: nat)
    returns (r: Option<Encoded>)
    requires ResizesExactly(resize)
    requires target >= 0
    ensures r == Shrunk(enc, resize, normalize, rawFactor, img, target, minW, minH)
  {
    var im := normalize(img);
    var first := TryLosslessThenLossy(enc, im, FormatName(im), target);
    if first.None? {
      return None;
    }
    var attempt, ext := first.value.data, first.value.ext;
    if |attempt| <= target {
      return first;
    }
    var last := attempt;
    var cur := im;
    ghost var goal := Run(enc, resize, rawFactor, im, attempt, ext, target, minW, minH);
    while true
      invariant Run(enc, resize, rawFactor, cur, last, ext, target, minW, minH) == goal
      decreases cur.width
    {
      var w, h := cur.width, cur.height;
      if w <= minW || h <= minH {
        return Some(Encoded(last, ext));
      }
      var factor := ClampFactor(rawFactor(target, Max(1, |last|)));
      var size := NextSize(w, h, factor, minW, minH);
      var newW, newH := size.0, size.1;
      cur := resize(cur, newW, newH);
      var c := if HasAlpha(cur) then Webp else Jpeg;
      var d := DescendTrackingSmallest(enc, cur, c, target);
      if d.Fitted? {
        return Some(Encoded(d.data, Extension(c)));
      }
      last := NewLast(d.leftover, last);
      ext := Extension(c);
      if |last| > 0 && |last| <= target {
        return Some(Encoded(last, ext));
      }
    }
  }

  /** After a resolution whose ladder found nothing within budget, `last`
      is still over budget, so the acceptance test of line 192 never fires. */
  lemma LateAcceptanceUnreachable(atts: seq<Option<Bytes>>, last: Bytes, target: int)
    requires FirstFit(atts, target).None?
    requires |last| > target
    ensures |NewLast(Smallest(atts), last)| > target
  {
    SmallestIsMinimum(atts);
  }

  /** From a state whose `last` is over budget, the loop stops either with a
      result within budget or at an image with a side at its floor, and that
      image is the current one or strictly smaller in both sides. */
  lemma {:induction false} RunStopsAtFitOrFloor(enc: Encoder, resize: Resizer, rawFactor: (int, int) -> real,
                               cur: Image, last: Bytes, ext: string, target: int, minW: nat, minH: nat)
    requires ResizesExactly(resize)
    requires target >= 0
    requires |last| > target
    ensures var s := Run(enc, resize, rawFactor, cur, last, ext, target, minW, minH);
      && (|s.result.data| <= target || s.at.width <= minW || s.at.height <= minH)
      && (s.at == cur || (s.at.width < cur.width && s.at.height < cur.height))
    decreases cur.width
  {
    if cur.width > minW && cur.height > minH {
      var factor := ClampFactor(rawFactor(target, Max(1, |last|)));
      var size := NextSize(cur.width, cur.height, factor, minW, minH);
      var next := resize(cur, size.0, size.1);
      var c := ContainerFor(next);
      var atts := Attempts(enc, next, c);
      if FirstFit(atts, target).None? {
        var last' := NewLast(Smallest(atts), last);
        LateAcceptanceUnreachable(atts, last, target);
        RunStopsAtFitOrFloor(enc, resize, rawFactor, next, last', Extension(c), target, minW, minH);
      }
    }
  }

  /** When the extension carried in is the one alpha chooses for the
      current image, the returned extension is the one alpha chooses for the
      image the loop stopped at. */
  lemma {:induction false} RunContainerFollowsAlpha(enc: Encoder, resize: Resizer, rawFactor: (int, int) -> real,
                                   cur: Image, last: Bytes, ext: string, target: int, minW: nat, minH: nat)
    requires ResizesExactly(resize)
    requires target >= 0
    requires ext == Extension(ContainerFor(cur))
    ensures var s := Run(enc, resize, rawFactor, cur, last, ext, target, minW, minH);
      s.result.ext == Extension(ContainerFor(s.at))
    decreases cur.width
  {
    if cur.width > minW && cur.height > minH {
      var factor := ClampFactor(rawFactor(target, Max(1, |last|)));
      var size := NextSize(cur.width, cur.height, factor, minW, minH);
      var next := resize(cur, size.0, size.1);
      var c := ContainerFor(next);
      var atts := Attempts(enc, next, c);
      if FirstFit(atts, target).None? {
        var last' := NewLast(Smallest(atts), last);
        RunContainerFollowsAlpha(enc, resize, rawFactor, next, last', Extension(c), target, minW, minH);
      }
    }
  }

  /** A resampler that keeps alpha keeps it along the whole loop. */
  lemma {:induction false} RunKeepsAlpha(enc: Encoder, resize: Resizer, rawFactor: (int, int) -> real,
                        cur: Image, last: Bytes, ext: string, target: int, minW: nat, minH: nat)
    requires ResizesExactly(resize) && KeepsAlpha(resize)
    requires target >= 0
    ensures HasAlpha(Run(enc, resize, rawFactor, cur, last, ext, target, minW, minH).at) == HasAlpha(cur)
    decreases cur.width
  {
    if cur.width > minW && cur.height > minH {
      var factor := ClampFactor(rawFactor(target, Max(1, |last|)));
      var size := NextSize(cur.width, cur.height, factor, minW, minH);
      var next := resize(cur, size.0, size.1);
      var c := ContainerFor(next);
      var atts := Attempts(enc, next, c);
      if FirstFit(atts, target).None? {
        var last' := NewLast(Smallest(atts), last);
        RunKeepsAlpha(enc, resize, rawFactor, next, last', Extension(c), target, minW, minH);
      }
    }
  }

  /** The whole of `shrink_to_target`: no result exactly when the first
      search had none; the first result when it fits; otherwise the loop's
      result, which is within budget or taken at a floor-sized image, and
      whose extension is the one alpha chooses for that image. */
  lemma ShrinkOutcome(enc: Encoder, resize: Resizer, normalize: Image -> Image, rawFactor: (int, int) -> real,
                      img: Image, target: int, minW: nat, minH: nat)
    requires ResizesExactly(resize)
    requires target >= 0
    ensures var im := normalize(img);
      var first := SearchOnce(enc, im, FormatName(im), target);
      var r := Shrunk(enc, resize, normalize, rawFactor, img, target, minW, minH);
      && (r.None? <==> first.None?)
      && (first.Some? && |first.value.data| <= target ==> r == first)
      && (first.Some? && |first.value.data| > target ==>
            var s := Run(enc, resize, rawFactor, im, first.value.data, first.value.ext, target, minW, minH);
            && r == Some(s.result)
            && s.result.ext == Extension(ContainerFor(s.at))
            && (|s.result.data| <= target || s.at.width <= minW || s.at.height <= minH))
  {
    var im := normalize(img);
    var first := SearchOnce(enc, im, FormatName(im), target);
    if first.Some? && |first.value.data| > target {
      ContainerFollowsAlpha(enc, im, FormatName(im), target);
      RunStopsAtFitOrFloor(enc, resize, rawFactor, im, first.value.data, first.value.ext, target, minW, minH);
      RunContainerFollowsAlpha(enc, resize, rawFactor, im, first.value.data, first.value.ext, target, minW, minH);
    }
  }

  /** With a resampler that keeps alpha, an image with alpha never comes
      back as JPEG and one without alpha never as WEBP, except through an
      original-format attempt within budget. */
  lemma AlphaDecidesContainer(enc: Encoder, resize: Resizer, normalize: Image -> Image, rawFactor: (int, int) -> real,
                              img: Image, target: int, minW: nat, minH: nat)
    requires ResizesExactly(resize) && KeepsAlpha(resize)
    requires target >= 0
    requires !Fits(enc(normalize(img), OriginalRequest(Upper(FormatName(normalize(img))))), target)
    ensures var r := Shrunk(enc, resize, normalize, rawFactor, img, target, minW, minH);
      r.Some? ==> r.value.ext == (if HasAlpha(normalize(img)) then ".webp" else ".jpg")
  {
    var im := normalize(img);
    var first := SearchOnce(enc, im, FormatName(im), target);
    ContainerFollowsAlpha(enc, im, FormatName(im), target);
    if first.Some? && |first.value.data| > target {
      RunContainerFollowsAlpha(enc, resize, rawFactor, im, first.value.data, first.value.ext, target, minW, minH);
      RunKeepsAlpha(enc, resize, rawFactor, im, first.value.data, first.value.ext, target, minW, minH);
    }
  }

  function Zeros(n: nat): (z: Bytes)
    ensures |z| == n
  {
    seq(n, _ => 0 as byte)
  }

  /** An encoder whose every answer is 10 bytes at width 700 and 20 bytes
      at any other width, a resampler that only changes the size, and a
      700-pixel square RGB image with no format name. */
  function GrowEnc(im: Image, rq: Request): Option<Bytes>
  {
    Some(Zeros(if im.width == 700 then 10 else 20))
  }

  function SizeOnly(im: Image, w: int, h: int): (r: Image)
    ensures r.width == w && r.height == h
  {
    im.(width := w, height := h)
  }

  function GrowStart(): Image
  {
    Image(700, 700, "RGB", {}, None, [])
  }

  /** With a 5-byte budget the first search misses everywhere and keeps the
      last 10-byte JPEG encode. */
  lemma GrowFirstStage()
    ensures SearchOnce(GrowEnc, GrowStart(), FormatName(GrowStart()), 5) == Some(Encoded(Zeros(10), ".jpg"))
  {
    var img := GrowStart();
    assert FormatName(img) == "JPEG";
    assert Upper("JPEG") == "JPEG";
    var atts := Attempts(GrowEnc, img, Jpeg);
    forall i | 0 <= i < |atts|
      ensures atts[i] == Some(Zeros(10))
    {
      assert atts[i] == GrowEnc(img, LossyRequest(Jpeg, Ladder()[i]));
    }
    assert FirstFit(atts, 5).None?;
    LastSuccessIsLast(atts, Some(Zeros(10)));
  }

  /** From the 10-byte first result, one step reaches the 640 floor, where
      every encode is 20 bytes and the loop stops with 20 bytes. */
  lemma GrowLoopStage()
    ensures ResizesExactly(SizeOnly)
    ensures Run(GrowEnc, SizeOnly, (t: int, n: int) => 0.0, GrowStart(), Zeros(10), ".jpg", 5, DefaultMinSide, DefaultMinSide).result
      == Encoded(Zeros(20), ".jpg")
  {
    var next := SizeOnly(GrowStart(), 640, 640);
    assert NextSize(700, 700, ClampFactor(0.0), DefaultMinSide, DefaultMinSide) == (640, 640);
    var atts := Attempts(GrowEnc, next, Jpeg);
    forall i | 0 <= i < |atts|
      ensures atts[i] == Some(Zeros(20))
    {
      assert atts[i] == GrowEnc(next, LossyRequest(Jpeg, Ladder()[i]));
    }
    assert FirstFit(atts, 5).None?;
    SmallestIsMinimum(atts);
    assert Smallest(atts) == Some(Zeros(20));
  }

  /** The loop does not keep the smallest result across resolutions: the
      first search returns 10 bytes over budget, and `shrink_to_target`
      comes back with 20. */
  lemma BestEffortCanGrow()
    ensures ResizesExactly(SizeOnly)
    ensures SearchOnce(GrowEnc, GrowStart(), FormatName(GrowStart()), 5) == Some(Encoded(Zeros(10), ".jpg"))
    ensures Shrunk(GrowEnc, SizeOnly, (im: Image) => im, (t: int, n: int) => 0.0, GrowStart(), 5, DefaultMinSide, DefaultMinSide)
      == Some(Encoded(Zeros(20), ".jpg"))
  {
    GrowFirstStage();
    GrowLoopStage();
  }
}
