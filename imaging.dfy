/** What the target-size search needs to know about an image and about the
    imaging library it drives: image metadata, encode requests, and the
    encoder and resampler as function values the search cannot look into. */
module Imaging {
  import opened Wrappers

  newtype byte = x: int | 0 <= x < 256

  type Bytes = seq<byte>

  /** A decoded raster image: its size, its colour mode ("RGB", "RGBA",
      "LA", "P", ...), the keys of its info map, the container it was read
      from (None for an image made in memory) and pixel data that only the
      codec interprets. */
  datatype Image = Image(
    width: int,
    height: int,
    mode: string,
    info: set<string>,
    format: Option<string>,
    pixels: seq<int>)

  /** One encode call: JPEG at a quality (progressive, optimised), PNG
      with optimisation and palette quantisation, WEBP at a quality with or
      without lossless mode, or a plain save in some other named format. */
  datatype Request =
    | EncodeJpeg(quality: int)
    | EncodePng
    | EncodeWebp(quality: int, lossless: bool)
    | EncodeNative(format: string)

  /** The bytes and file extension the search hands back. */
  datatype Encoded = Encoded(data: Bytes, ext: string)

  /** An encode call of the imaging library; None stands for an exception. */
  type Encoder = (Image, Request) -> Option<Bytes>

  /** A resampling call: the image scaled to the given width and height. */
  type Resizer = (Image, int, int) -> Image

  /** The resampler returns an image of exactly the requested size. */
  ghost predicate ResizesExactly(resize: Resizer)
  {
    forall im, w, h :: resize(im, w, h).width == w && resize(im, w, h).height == h
  }

  /** The resampler keeps whether an image has alpha. */
  ghost predicate KeepsAlpha(resize: Resizer)
  {
    forall im, w, h :: HasAlpha(resize(im, w, h)) == HasAlpha(im)
  }

  /** An image has alpha when its mode carries an alpha band, or when it is
      palette-based and declares a transparent entry. */
  predicate HasAlpha(img: Image)
  {
    img.mode in ["RGBA", "LA"] || (img.mode == "P" && "transparency" in img.info)
  }

  /** Alpha is decided by the mode alone except for palette images, where
      the transparency entry decides. */
  lemma AlphaByMode(img: Image)
    ensures img.mode == "RGBA" || img.mode == "LA" ==> HasAlpha(img)
    ensures img.mode == "P" ==> (HasAlpha(img) <==> "transparency" in img.info)
    ensures img.mode !in ["RGBA", "LA", "P"] ==> !HasAlpha(img)
  {
  }

  function UpperChar(c: char): char
  {
    if 'a' <= c <= 'z' then (c as int - 32) as char else c
  }

  function LowerChar(c: char): char
  {
    if 'A' <= c <= 'Z' then (c as int + 32) as char else c
  }

  /** `str.upper`, restricted to the ASCII letters. */
  function Upper(s: string): (r: string)
    ensures |r| == |s|
    ensures forall i :: 0 <= i < |s| ==> r[i] == UpperChar(s[i])
  {
    if s == [] then [] else [UpperChar(s[0])] + Upper(s[1..])
  }

  /** `str.lower`, restricted to the ASCII letters. */
  function Lower(s: string): (r: string)
    ensures |r| == |s|
    ensures forall i :: 0 <= i < |s| ==> r[i] == LowerChar(s[i])
  {
    if s == [] then [] else [LowerChar(s[0])] + Lower(s[1..])
  }

  /** Lower-casing an upper-cased name gives the lower-cased name. */
  lemma LowerOfUpper(s: string)
    ensures Lower(Upper(s)) == Lower(s)
  {
  }
}
