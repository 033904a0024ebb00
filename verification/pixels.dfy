/**
 The two pixel formats the capture worker deals with and the per-frame
 conversion between them: the camera delivers blue-green-red triples, the
 engine frame holds red-green-blue-alpha quadruples. The conversion is a
 channel reorder, no colour-space arithmetic, and the alpha channel of the
 destination is never written.
 */
module Pixels {

  /** An 8-bit colour channel. */
  newtype byte = x: int | 0 <= x < 256

  /** A camera pixel, in the order the device stores its channels. */
  datatype Bgr = Bgr(b: byte, g: byte, r: byte)

  /** A pixel of an engine video frame. */
  datatype Rgba = Rgba(r: byte, g: byte, b: byte, a: byte)

  /** The destination pixel after its three colour channels were copied from `src` by name. */
  function CopyColour(src: Bgr, dest: Rgba): (p: Rgba)
    ensures p.r == src.r && p.g == src.g && p.b == src.b
    ensures p.a == dest.a
  {
    dest.(r := src.r, g := src.g, b := src.b)
  }

  /** The first `count` pixels of `image` carry the red, green and blue channels of `src`. */
  ghost predicate CarriesColours(image: seq<Rgba>, src: seq<Bgr>, count: nat)
  {
    && count <= |image| && count <= |src|
    && forall i :: 0 <= i < count ==> image[i].r == src[i].r && image[i].g == src[i].g && image[i].b == src[i].b
  }

  /**
   The meaning of one conversion pass: `out` is `dest` with the first `count`
   pixels carrying the colour channels of `src`, their alpha kept, and every
   pixel from `count` on left as it was.
   */
  ghost predicate ConvertedFrom(out: seq<Rgba>, src: seq<Bgr>, dest: seq<Rgba>, count: nat)
    requires count <= |src| && count <= |dest|
  {
    && |out| == |dest|
    && CarriesColours(out, src, count)
    && (forall i :: 0 <= i < count ==> out[i].a == dest[i].a)
    && (forall i :: count <= i < |dest| ==> out[i] == dest[i])
  }

  /** The converted image as a value; the capture step uses this form. */
  function Converted(src: seq<Bgr>, dest: seq<Rgba>, count: nat): (out: seq<Rgba>)
    requires count <= |src| && count <= |dest|
    ensures ConvertedFrom(out, src, dest, count)
  {
    seq(|dest|, i requires 0 <= i < |dest| => if i < count then CopyColour(src[i], dest[i]) else dest[i])
  }

  /** The per-channel description pins the converted image down completely. */
  lemma ConvertedFromIsUnique(out: seq<Rgba>, src: seq<Bgr>, dest: seq<Rgba>, count: nat)
    requires count <= |src| && count <= |dest|
    ensures ConvertedFrom(out, src, dest, count) <==> out == Converted(src, dest, count)
  {
  }

  /**
   The worker's pixel loop: for every index below `pixelCount` it copies the
   red, green and blue channels of the camera pixel into the frame pixel of
   the same index; alpha and the pixels at or beyond `pixelCount` are left
   alone. The caller guarantees both images hold at least `pixelCount` pixels.
   */
  method ConvertBgrToRgba(src: seq<Bgr>, dest: seq<Rgba>, pixelCount: nat) returns (out: seq<Rgba>)
    requires pixelCount <= |src| && pixelCount <= |dest|
    ensures ConvertedFrom(out, src, dest, pixelCount)
  {
    out := dest;
    var pixelIdx := 0;
    while pixelIdx < pixelCount
      invariant 0 <= pixelIdx <= pixelCount
      invariant |out| == |dest|
      invariant forall i :: 0 <= i < pixelIdx ==>
                  out[i].r == src[i].r && out[i].g == src[i].g && out[i].b == src[i].b && out[i].a == dest[i].a
      invariant forall i :: pixelIdx <= i < |dest| ==> out[i] == dest[i]
    {
      out := out[pixelIdx := CopyColour(src[pixelIdx], out[pixelIdx])];
      pixelIdx := pixelIdx + 1;
    }
  }
}
