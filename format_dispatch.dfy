/** `try_lossless_then_lossy`: one attempt in the image's own container,
    then a quality descent in the lossy container chosen by alpha. */
module FormatDispatch {
  import opened Wrappers
  import opened Imaging
  import opened QualityDescent

  /** `img.format or "JPEG"`: a missing or empty format name reads as JPEG. */
  function FormatName(img: Image): string
  {
    if img.format.Some? && img.format.value != "" then img.format.value else "JPEG"
  }

  /** The single encode tried in the original container, given the
      upper-cased format name: JPEG at quality 95, quantised PNG, lossless
      WEBP at quality 100, or a plain save in the named format. */
  function OriginalRequest(fmt: string): Request
  {
    if fmt == "JPEG" || fmt == "JPG" then EncodeJpeg(95)
    else if fmt == "PNG" then EncodePng
    else if fmt == "WEBP" then EncodeWebp(100, true)
    else EncodeNative(fmt)
  }

  /** The extension that the original-format attempt is labelled with. */
  function OriginalExtension(fmt: string): string
  {
    if fmt == "JPEG" || fmt == "JPG" then ".jpg"
    else if fmt == "PNG" then ".png"
    else if fmt == "WEBP" then ".webp"
    else "." + Lower(fmt)
  }

  /** The extension matches the container of the original attempt, and an
      unknown format is labelled with its own name in lower case. */
  lemma OriginalExtensionNamesFormat(fmt: string)
    ensures var f := Upper(fmt);
      && (f in ["JPEG", "JPG"] <==> OriginalRequest(f) == EncodeJpeg(95))
      && (f in ["JPEG", "JPG"] ==> OriginalExtension(f) == ".jpg")
      && (f == "PNG" <==> OriginalRequest(f) == EncodePng)
      && (f == "PNG" ==> OriginalExtension(f) == ".png")
      && (f == "WEBP" <==> OriginalRequest(f) == EncodeWebp(100, true))
      && (f == "WEBP" ==> OriginalExtension(f) == ".webp")
      && (f !in ["JPEG", "JPG", "PNG", "WEBP"] ==>
            OriginalRequest(f) == EncodeNative(f) && OriginalExtension(f) == "." + Lower(fmt))
  {
    LowerOfUpper(fmt);
  }

  /** The extension that names the container a request encodes into. */
  function RequestExt(rq: Request): string
  {
    match rq
    case EncodeJpeg(_) => ".jpg"
    case EncodePng => ".png"
    case EncodeWebp(_, _) => ".webp"
    case EncodeNative(g) => "." + Lower(g)
  }

  /** The original-format attempt is labelled with the extension of the
      container its request actually encodes into. */
  lemma OriginalLabelNamesRequest(fmt: string)
    ensures OriginalExtension(Upper(fmt)) == RequestExt(OriginalRequest(Upper(fmt)))
  {
  }

  /** The original-format attempt ignores alpha: an RGBA image made in
      memory has no format, is tried as JPEG at quality 95 (which drops
      alpha), and when that fits it comes back as `.jpg`. */
  lemma AlphaImageCanComeBackAsJpeg()
    ensures var img := Image(800, 600, "RGBA", {}, None, []);
      var enc: Encoder := (im: Image, rq: Request) => Some([]);
      && HasAlpha(img)
      && OriginalRequest(Upper(FormatName(img))) == EncodeJpeg(95)
      && SearchOnce(enc, img, FormatName(img), 10) == Some(Encoded([], ".jpg"))
  {
  }

  /** What `try_lossless_then_lossy` returns, as a function of the encoder's
      answers: the original attempt when it fits; otherwise the first rung of
      the lossy ladder that fits; otherwise the last successful encode of any
      kind under the lossy extension; None when nothing was ever encoded
      (the unbound `b` of line 129). */
  function SearchOnce(enc: Encoder, img: Image, fmt: string, target: int): Option<Encoded>
  {
    var f := Upper(fmt);
    var orig := enc(img, OriginalRequest(f));
    if Fits(orig, target) then Some(Encoded(orig.value, OriginalExtension(f)))
    else
      var c := ContainerFor(img);
      var atts := Attempts(enc, img, c);
      match FirstFit(atts, target)
      case Some(k) => Some(Encoded(atts[k].value, Extension(c)))
      case None =>
        match LastSuccess(atts, orig)
        case Some(b) => Some(Encoded(b, Extension(c)))
        case None => None
  }

  /** photo_resize.py lines 70-129. */
  method TryLosslessThenLossy(enc: Encoder, img: Image, fmt: string, target: int)
    returns (r: Option<Encoded>)
    ensures r == SearchOnce(enc, img, fmt, target)
  {
    var f := Upper(fmt);
    var b := enc(img, OriginalRequest(f));
    if b.Some? && |b.value| <= target {
      return Some(Encoded(b.value, OriginalExtension(f)));
    }
    var preferWebp := HasAlpha(img);
    var c := if preferWebp then Webp else Jpeg;
    var d := DescendQuality(enc, img, c, target, b);
    match d
    case Fitted(data) =>
      return Some(Encoded(data, Extension(c)));
    case Exhausted(last) =>
      if last.None? {
        return None;
      }
      return Some(Encoded(last.value, if preferWebp then ".webp" else ".jpg"));
  }

  /** An original-format attempt within budget is returned at once, with
      the extension of that format and no ladder step. */
  lemma OriginalFitReturnsAtOnce(enc: Encoder, img: Image, fmt: string, target: int)
    requires Fits(enc(img, OriginalRequest(Upper(fmt))), target)
    ensures SearchOnce(enc, img, fmt, target) ==
      Some(Encoded(enc(img, OriginalRequest(Upper(fmt))).value, OriginalExtension(Upper(fmt))))
  {
  }

  /** When the original attempt does not fit, the result is the first rung
      of the ladder within budget, if any rung fits: no rung before it fits,
      it is within budget, and the extension is the alpha-chosen container's. */
  lemma LadderReturnsFirstFit(enc: Encoder, img: Image, fmt: string, target: int, i: nat)
    requires !Fits(enc(img, OriginalRequest(Upper(fmt))), target)
    requires i < |Ladder()| && Fits(enc(img, LossyRequest(ContainerFor(img), Ladder()[i])), target)
    ensures var r := SearchOnce(enc, img, fmt, target);
      && r.Some? && |r.value.data| <= target
      && r.value.ext == (if HasAlpha(img) then ".webp" else ".jpg")
      && exists k :: 0 <= k <= i &&
           enc(img, LossyRequest(ContainerFor(img), Ladder()[k])) == Some(r.value.data) &&
           (forall j :: 0 <= j < k ==> !Fits(enc(img, LossyRequest(ContainerFor(img), Ladder()[j])), target))
  {
    var atts := Attempts(enc, img, ContainerFor(img));
    assert Fits(atts[i], target);
    var k := FirstFit(atts, target).value;
    assert forall j :: 0 <= j < k ==> atts[j] == enc(img, LossyRequest(ContainerFor(img), Ladder()[j]));
  }

  /** When nothing fits, the result is over budget and is the LAST
      successful encode (the last ladder success, else the original attempt)
      under the lossy extension, not the smallest; it is missing exactly
      when every encode failed. */
  lemma ExhaustedReturnsLastAttempt(enc: Encoder, img: Image, fmt: string, target: int)
    requires !Fits(enc(img, OriginalRequest(Upper(fmt))), target)
    requires forall i :: 0 <= i < |Ladder()| ==>
      !Fits(enc(img, LossyRequest(ContainerFor(img), Ladder()[i])), target)
    ensures var orig := enc(img, OriginalRequest(Upper(fmt)));
      var atts := Attempts(enc, img, ContainerFor(img));
      var r := SearchOnce(enc, img, fmt, target);
      var ext := Extension(ContainerFor(img));
      && (r.None? <==> orig.None? && forall i :: 0 <= i < |atts| ==> atts[i].None?)
      && (r.Some? ==> |r.value.data| > target)
      && (r.Some? ==> r.value.ext == (if HasAlpha(img) then ".webp" else ".jpg"))
      && ((forall i :: 0 <= i < |atts| ==> atts[i].None?) ==>
            r == if orig.None? then None else Some(Encoded(orig.value, ext)))
      && (forall i :: 0 <= i < |atts| && atts[i].Some? && (forall j :: i < j < |atts| ==> atts[j].None?) ==>
            r == Some(Encoded(atts[i].value, ext)))
  {
    var orig := enc(img, OriginalRequest(Upper(fmt)));
    var atts := Attempts(enc, img, ContainerFor(img));
    assert forall i :: 0 <= i < |atts| ==> !Fits(atts[i], target);
    LastSuccessIsLast(atts, orig);
  }

  /** Whatever the result, unless it is the original attempt within budget
      it carries the container chosen by alpha: `.webp` for an image with
      alpha, `.jpg` otherwise. */
  lemma ContainerFollowsAlpha(enc: Encoder, img: Image, fmt: string, target: int)
    requires !Fits(enc(img, OriginalRequest(Upper(fmt))), target)
    ensures var r := SearchOnce(enc, img, fmt, target);
      r.Some? ==> (r.value.ext == Extension(ContainerFor(img)) && (HasAlpha(img) <==> r.value.ext == ".webp"))
  {
  }
}
