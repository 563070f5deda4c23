/** Rasters as the codec sees them once an image is loaded, and what a codec call reports. */
module Rasters {
  import opened Bits

  /** One carrier pixel: the three 8-bit channels 0..2 (red, green, blue). */
  datatype RGB = RGB(r: Byte, g: Byte, b: Byte)

  /** The colour a freshly created image is filled with. */
  const Black := RGB(0, 0, 0)

  /** A `w` x `h` image; the pixel the source addresses as `pxlmap[cl, rw]` (column `cl`,
      row `rw`) is `pixels[rw * w + cl]`. */
  datatype Raster<P> = Raster(w: nat, h: nat, pixels: seq<P>)
  {
    predicate Valid()
    {
      |pixels| == w * h
    }
  }

  /** The two reported failures of the codec (opening a file is not part of this model). */
  datatype Error = SizeMismatch | CapacityExceeded

  datatype Result<T> = Ok(value: T) | Err(error: Error)

  /** What a weave call leaves behind: its result, and whether it deleted the carrier file. */
  datatype Outcome<T> = Outcome(result: Result<T>, removed: bool)

  /** The row-major index of the first pixel of row `rw` in a raster `w` wide, that is,
      `rw * w`, written as repeated addition. */
  function RowStart(w: nat, rw: nat): nat
  {
    if rw == 0 then 0 else RowStart(w, rw - 1) + w
  }

  lemma {:induction false} RowStartProduct(w: nat, rw: nat)
    ensures RowStart(w, rw) == rw * w
  {
    if rw > 0 {
      RowStartProduct(w, rw - 1);
    }
  }

  /** Later rows start further on. */
  lemma {:induction false} RowStartMono(w: nat, a: nat, b: nat)
    requires a <= b
    ensures RowStart(w, a) <= RowStart(w, b)
  {
    if a < b {
      RowStartMono(w, a, b - 1);
    }
  }
}
