/** The image codec: `weave` hides an 8-bit single-channel raster in the low 3/3/2 bits of
    the red/green/blue channels of a carrier of the same size, and `extract` reads it back. */
module ImageCodec {
  import opened Bits
  import opened Rasters

  /** Carrier pixel `c` with the embedded value `e` spliced in: bits 7..5 of `e` replace the
      low three bits of red, bits 4..2 the low three bits of green, bits 1..0 the low two
      bits of blue. */
  function Splice(c: RGB, e: Byte): RGB
  {
    RGB(c.r / 8 * 8 + e / 32, c.g / 8 * 8 + e % 32 / 4, c.b / 4 * 4 + e % 4)
  }

  /** The value a pixel hides: `(R & 7) << 5 | (G & 7) << 2 | (B & 3)`. */
  function Hidden(p: RGB): Byte
  {
    p.r % 8 * 32 + p.g % 8 * 4 + p.b % 4
  }

  /** What `weave` produces from a carrier and an embedded raster of the same size,
      stated on values. */
  function WeaveImage(c: Raster<RGB>, e: Raster<Byte>): Raster<RGB>
    requires |e.pixels| == |c.pixels|
  {
    Raster(c.w, c.h, seq(|c.pixels|, n requires 0 <= n < |c.pixels| => Splice(c.pixels[n], e.pixels[n])))
  }

  /** What `extract` produces from a carrier, stated on values. */
  function ExtractImage(c: Raster<RGB>): Raster<Byte>
  {
    Raster(c.w, c.h, seq(|c.pixels|, n requires 0 <= n < |c.pixels| => Hidden(c.pixels[n])))
  }

  /** The eight bits `extract` takes from one carrier pixel: the last three digits of red,
      the last three of green and the last two of blue. */
  function Low332(p: RGB): seq<Bit>
  {
    Bits8(p.r)[5..] + Bits8(p.g)[5..] + Bits8(p.b)[6..]
  }

  /** The pixel `weave` writes from carrier pixel `p` and the eight stream digits `g`: the
      first 5, 5 and 6 digits of the channels followed by digits 0..3, 3..6 and 6..8 of `g`,
      each read back with `int(_, 2)`. */
  function Reinsert(p: RGB, g: seq<Bit>): RGB
    requires |g| == 8
  {
    RGB(Octet(Bits8(p.r)[..5] + g[..3]), Octet(Bits8(p.g)[..5] + g[3..6]), Octet(Bits8(p.b)[..6] + g[6..]))
  }

  /** Every carrier pixel `n` rewritten with digits `8n .. 8n + 8` of the stream `g`. */
  function Rewoven(ps: seq<RGB>, g: seq<Bit>): seq<RGB>
    requires |g| == 8 * |ps|
  {
    seq(|ps|, n requires 0 <= n < |ps| => Reinsert(ps[n], g[8 * n .. 8 * n + 8]))
  }

  /** Pixel `n` of `Rewoven`, written with slices of the whole stream as `weave` takes
      them, from `j = n * 8`. */
  lemma RewovenAt(ps: seq<RGB>, g: seq<Bit>, n: nat, j: nat)
    requires |g| == 8 * |ps| && n < |ps| && j == n * 8
    ensures j + 8 <= |g|
    ensures Rewoven(ps, g)[n]
         == RGB(Octet(Bits8(ps[n].r)[..5] + g[j .. j + 3]), Octet(Bits8(ps[n].g)[..5] + g[j + 3 .. j + 6]),
                Octet(Bits8(ps[n].b)[..6] + g[j + 6 .. j + 8]))
  {
    Subslice(g, j, 8, 0, 3);
    Subslice(g, j, 8, 3, 6);
    Subslice(g, j, 8, 6, 8);
  }

  /** The low two digits of a value are the low two digits of its low five digits. */
  lemma LowDigits(e: nat)
    ensures e % 32 % 4 == e % 4
  {
    DivModUnique(e, 4, e / 32 * 8 + e % 32 / 4, e % 32 % 4);
  }

  /** Red channel of `Splice`: the carrier's first five red digits followed by the first
      three digits of `e`, read back as a number. */
  lemma SpliceRed(c: RGB, e: Byte)
    ensures FromBits(Bits8(c.r)[..5] + Bits8(e)[..3]) == Splice(c, e).r
  {
    assert Pow2(3) == 8 && Pow2(5) == 32 && Pow2(8) == 256;
    var a, b := Bits8(c.r)[..5], Bits8(e)[..3];
    Fields(c.r, 5, 3, c.r / 8, c.r % 8);
    Fields(e, 3, 5, e / 32, e % 32);
    FromBitsToBits(c.r / 8, 5);
    FromBitsToBits(e / 32, 3);
    FromBitsAppend(a, b);
  }

  /** Green channel: five carrier digits, then digits 3..6 of `e`. */
  lemma SpliceGreen(c: RGB, e: Byte)
    ensures FromBits(Bits8(c.g)[..5] + Bits8(e)[3..6]) == Splice(c, e).g
  {
    assert Pow2(2) == 4 && Pow2(3) == 8 && Pow2(5) == 32 && Pow2(8) == 256;
    var a, b := Bits8(c.g)[..5], Bits8(e)[3..6];
    Fields(c.g, 5, 3, c.g / 8, c.g % 8);
    Fields(e, 3, 5, e / 32, e % 32);
    Fields(e % 32, 3, 2, e % 32 / 4, e % 32 % 4);
    assert b == Bits8(e)[3..][..3];
    FromBitsToBits(c.g / 8, 5);
    FromBitsToBits(e % 32 / 4, 3);
    FromBitsAppend(a, b);
  }

  /** Blue channel: six carrier digits, then digits 6..8 of `e`. */
  lemma SpliceBlue(c: RGB, e: Byte)
    ensures FromBits(Bits8(c.b)[..6] + Bits8(e)[6..]) == Splice(c, e).b
  {
    assert Pow2(2) == 4 && Pow2(6) == 64 && Pow2(8) == 256;
    var a, b := Bits8(c.b)[..6], Bits8(e)[6..];
    Fields(c.b, 6, 2, c.b / 4, c.b % 4);
    Fields(e, 6, 2, e / 4, e % 4);
    FromBitsToBits(c.b / 4, 6);
    FromBitsToBits(e % 4, 2);
    FromBitsAppend(a, b);
  }

  /** The digit-string computation `weave` performs on one pixel is `Splice`. */
  lemma ReinsertSplice(c: RGB, e: Byte)
    ensures Reinsert(c, Bits8(e)) == Splice(c, e)
  {
    SpliceRed(c, e);
    SpliceGreen(c, e);
    SpliceBlue(c, e);
  }

  /** Bit-level reading of `Splice`: each output channel is the carrier channel's high
      digits (5, 5 and 6 of them) followed by the next 3, 3 and 2 digits of `e`. */
  lemma SpliceBits(c: RGB, e: Byte)
    ensures Bits8(Splice(c, e).r) == Bits8(c.r)[..5] + Bits8(e)[..3]
    ensures Bits8(Splice(c, e).g) == Bits8(c.g)[..5] + Bits8(e)[3..6]
    ensures Bits8(Splice(c, e).b) == Bits8(c.b)[..6] + Bits8(e)[6..]
  {
    var r, g, b := Bits8(c.r)[..5] + Bits8(e)[..3], Bits8(c.g)[..5] + Bits8(e)[3..6], Bits8(c.b)[..6] + Bits8(e)[6..];
    SpliceRed(c, e);
    SpliceGreen(c, e);
    SpliceBlue(c, e);
    ToBitsFromBits(r);
    ToBitsFromBits(g);
    ToBitsFromBits(b);
  }

  /** `weave` keeps the carrier's high 5/5/6 bits of every pixel `n` and sets the low 3/3/2
      bits to bits `8n .. 8n + 8` of the embedded stream, that is, to embedded pixel `n`. */
  lemma WeaveImageLayout(c: Raster<RGB>, e: Raster<Byte>, n: nat)
    requires |e.pixels| == |c.pixels| && n < |c.pixels|
    ensures 8 * n + 8 <= |Flatten(e.pixels, Bits8)|
    ensures Flatten(e.pixels, Bits8)[8 * n .. 8 * n + 8] == Bits8(e.pixels[n])
    ensures Bits8(WeaveImage(c, e).pixels[n].r)[..5] == Bits8(c.pixels[n].r)[..5]
    ensures Bits8(WeaveImage(c, e).pixels[n].g)[..5] == Bits8(c.pixels[n].g)[..5]
    ensures Bits8(WeaveImage(c, e).pixels[n].b)[..6] == Bits8(c.pixels[n].b)[..6]
    ensures Bits8(WeaveImage(c, e).pixels[n].r)[5..] == Flatten(e.pixels, Bits8)[8 * n .. 8 * n + 3]
    ensures Bits8(WeaveImage(c, e).pixels[n].g)[5..] == Flatten(e.pixels, Bits8)[8 * n + 3 .. 8 * n + 6]
    ensures Bits8(WeaveImage(c, e).pixels[n].b)[6..] == Flatten(e.pixels, Bits8)[8 * n + 6 .. 8 * n + 8]
  {
    var s := Flatten(e.pixels, Bits8);
    FlattenChunk(e.pixels, Bits8, 8, n);
    Subslice(s, 8 * n, 8, 0, 3);
    Subslice(s, 8 * n, 8, 3, 6);
    Subslice(s, 8 * n, 8, 6, 8);
    SpliceBits(c.pixels[n], e.pixels[n]);
  }

  /** Pixel `n` rewritten from the embedded stream `g_bytes` is embedded pixel `n`
      spliced into carrier pixel `n`. */
  lemma RewovenSpliceAt(c: Raster<RGB>, e: Raster<Byte>, n: nat)
    requires |e.pixels| == |c.pixels| && n < |c.pixels|
    requires |Flatten(e.pixels, Bits8)| == 8 * |c.pixels|
    ensures Rewoven(c.pixels, Flatten(e.pixels, Bits8))[n] == Splice(c.pixels[n], e.pixels[n])
  {
    FlattenChunk(e.pixels, Bits8, 8, n);
    ReinsertSplice(c.pixels[n], e.pixels[n]);
  }

  /** Rewriting every carrier pixel from the embedded stream `g_bytes` is `WeaveImage`. */
  lemma RewovenWeaveImage(c: Raster<RGB>, e: Raster<Byte>)
    requires |e.pixels| == |c.pixels|
    ensures |Flatten(e.pixels, Bits8)| == 8 * |c.pixels|
    ensures Rewoven(c.pixels, Flatten(e.pixels, Bits8)) == WeaveImage(c, e).pixels
  {
    FlattenLength(e.pixels, Bits8, 8);
    var r, t := Rewoven(c.pixels, Flatten(e.pixels, Bits8)), WeaveImage(c, e).pixels;
    forall n | 0 <= n < |c.pixels|
      ensures r[n] == t[n]
    {
      RewovenSpliceAt(c, e, n);
    }
  }

  /** Reading the eight hidden digits of a pixel gives `Hidden`. */
  lemma HiddenFromBits(p: RGB)
    ensures FromBits(Low332(p)) == Hidden(p)
  {
    assert Pow2(2) == 4 && Pow2(3) == 8 && Pow2(5) == 32 && Pow2(6) == 64;
    Fields(p.r, 5, 3, p.r / 8, p.r % 8);
    Fields(p.g, 5, 3, p.g / 8, p.g % 8);
    Fields(p.b, 6, 2, p.b / 4, p.b % 4);
    FromBitsToBits(p.r % 8, 3);
    FromBitsToBits(p.g % 8, 3);
    FromBitsToBits(p.b % 4, 2);
    var x, y, z := Bits8(p.r)[5..], Bits8(p.g)[5..], Bits8(p.b)[6..];
    FromBitsAppend(x, y);
    FromBitsAppend(x + y, z);
    assert FromBits(x + y) == p.r % 8 * 8 + p.g % 8;
  }

  /** Reading the carrier's hidden stream back eight digits at a time is `ExtractImage`:
      each carrier pixel contributes exactly eight digits, and they spell its hidden value. */
  lemma OctetsExtractImage(c: Raster<RGB>)
    ensures |Flatten(c.pixels, Low332)| == 8 * |c.pixels|
    ensures Octets(Flatten(c.pixels, Low332)) == ExtractImage(c).pixels
  {
    var s := Flatten(c.pixels, Low332);
    FlattenLength(c.pixels, Low332, 8);
    var r, t := Octets(s), ExtractImage(c).pixels;
    forall n | 0 <= n < |c.pixels|
      ensures r[n] == t[n]
    {
      FlattenChunk(c.pixels, Low332, 8, n);
      HiddenFromBits(c.pixels[n]);
    }
  }

  /** Splicing a value into any carrier pixel and reading it back returns the value. */
  lemma HiddenSplice(c: RGB, e: Byte)
    ensures Hidden(Splice(c, e)) == e
  {
    var p := Splice(c, e);
    DivModUnique(p.r, 8, c.r / 8, e / 32);
    DivModUnique(p.g, 8, c.g / 8, e % 32 / 4);
    DivModUnique(p.b, 4, c.b / 4, e % 4);
    LowDigits(e);
  }

  /** Image round trip: extracting from a woven carrier returns the embedded raster. */
  lemma ImageRoundTrip(c: Raster<RGB>, e: Raster<Byte>)
    requires c.Valid() && e.Valid() && c.w == e.w && c.h == e.h
    ensures ExtractImage(WeaveImage(c, e)) == e
  {
    var out := ExtractImage(WeaveImage(c, e));
    forall n | 0 <= n < |e.pixels|
      ensures out.pixels[n] == e.pixels[n]
    {
      HiddenSplice(c.pixels[n], e.pixels[n]);
    }
  }

  /** The first loop of `weave`: the embedded values as one bitstream, eight digits per
      pixel, row by row. */
  method EmbeddedBitstream(embedded: Raster<Byte>) returns (gBytes: seq<Bit>)
    requires embedded.Valid()
    ensures gBytes == Flatten(embedded.pixels, Bits8)
  {
    var w, h := embedded.w, embedded.h;
    assert |embedded.pixels| == RowStart(w, h) by { RowStartProduct(w, h); }
    gBytes := [];
    var rw, start := 0, 0;  // start is rw * w, the index of the first pixel of row rw
    while rw < h
      invariant 0 <= rw <= h
      invariant start == RowStart(w, rw) && start <= |embedded.pixels|
      invariant gBytes == Flatten(embedded.pixels[..start], Bits8)
    {
      RowStartMono(w, rw + 1, h);
      var cl := 0;
      while cl < w
        invariant 0 <= cl <= w
        invariant start + cl <= |embedded.pixels|
        invariant gBytes == Flatten(embedded.pixels[..start + cl], Bits8)
      {
        var n := start + cl;
        gBytes := gBytes + Bits8(embedded.pixels[n]);
        assert gBytes == Flatten(embedded.pixels[..n + 1], Bits8) by {
          FlattenSnoc(embedded.pixels, Bits8, n);
        }
        cl := cl + 1;
      }
      rw, start := rw + 1, start + w;
    }
    assert embedded.pixels[..start] == embedded.pixels;
  }

  /** The second loop of `weave`: a fresh image of the carrier's size whose pixel `n` is
      carrier pixel `n` rewritten with digits `8n .. 8n + 8` of `gBytes`. */
  method WeavePixels(carrier: Raster<RGB>, gBytes: seq<Bit>) returns (woven: Raster<RGB>)
    requires carrier.Valid() && |gBytes| == 8 * |carrier.pixels|
    ensures woven == Raster(carrier.w, carrier.h, Rewoven(carrier.pixels, gBytes))
  {
    var w, h := carrier.w, carrier.h;
    assert |carrier.pixels| == RowStart(w, h) by { RowStartProduct(w, h); }
    var pixels := new RGB[|carrier.pixels|](_ => Black);
    var rw, start := 0, 0;
    while rw < h
      invariant 0 <= rw <= h
      invariant start == RowStart(w, rw) && start <= |carrier.pixels|
      invariant forall k :: 0 <= k < start ==> pixels[k] == Rewoven(carrier.pixels, gBytes)[k]
    {
      RowStartMono(w, rw + 1, h);
      var cl := 0;
      while cl < w
        invariant 0 <= cl <= w
        invariant start + cl <= |carrier.pixels|
        invariant forall k :: 0 <= k < start + cl ==> pixels[k] == Rewoven(carrier.pixels, gBytes)[k]
      {
        var n := start + cl;
        var px := carrier.pixels[n];
        var cv := [Bits8(px.r), Bits8(px.g), Bits8(px.b)];
        var j := n * 8;
        var r0 := cv[0][..5] + gBytes[j .. j + 3];
        var g0 := cv[1][..5] + gBytes[j + 3 .. j + 6];
        var b0 := cv[2][..6] + gBytes[j + 6 .. j + 8];
        var rgb := RGB(Octet(r0), Octet(g0), Octet(b0));
        assert rgb == Rewoven(carrier.pixels, gBytes)[n] by {
          RewovenAt(carrier.pixels, gBytes, n, j);
        }
        pixels[n] := rgb;
        cl := cl + 1;
      }
      rw, start := rw + 1, start + w;
    }
    assert pixels[..] == Rewoven(carrier.pixels, gBytes);
    woven := Raster(w, h, pixels[..]);
  }

  /** `weave`: on a size mismatch, an error and no deletion; otherwise the woven carrier,
      with the carrier deleted only after every woven pixel has been computed. */
  method Weave(carrier: Raster<RGB>, embedded: Raster<Byte>) returns (res: Outcome<Raster<RGB>>)
    requires carrier.Valid() && embedded.Valid()
    ensures res == if carrier.w == embedded.w && carrier.h == embedded.h
                   then Outcome(Ok(WeaveImage(carrier, embedded)), true)
                   else Outcome(Err(SizeMismatch), false)
  {
    if (carrier.w, carrier.h) != (embedded.w, embedded.h) {
      return Outcome(Err(SizeMismatch), false);
    }
    var gBytes := EmbeddedBitstream(embedded);
    RewovenWeaveImage(carrier, embedded);
    var woven := WeavePixels(carrier, gBytes);
    var removed := true;  // the carrier file is deleted before the result is saved
    res := Outcome(Ok(woven), removed);
  }

  /** The first loop of `extract`: the low 3/3/2 digits of every carrier pixel, row by row. */
  method CarrierBitstream(carrier: Raster<RGB>) returns (bitData: seq<Bit>)
    requires carrier.Valid()
    ensures bitData == Flatten(carrier.pixels, Low332)
  {
    var w, h := carrier.w, carrier.h;
    assert |carrier.pixels| == RowStart(w, h) by { RowStartProduct(w, h); }
    bitData := [];
    var rw, start := 0, 0;
    while rw < h
      invariant 0 <= rw <= h
      invariant start == RowStart(w, rw) && start <= |carrier.pixels|
      invariant bitData == Flatten(carrier.pixels[..start], Low332)
    {
      RowStartMono(w, rw + 1, h);
      var cl := 0;
      while cl < w
        invariant 0 <= cl <= w
        invariant start + cl <= |carrier.pixels|
        invariant bitData == Flatten(carrier.pixels[..start + cl], Low332)
      {
        var n := start + cl;
        var px := carrier.pixels[n];
        var cv := [Bits8(px.r), Bits8(px.g), Bits8(px.b)];
        bitData := bitData + (cv[0][5..] + cv[1][5..] + cv[2][6..]);
        assert bitData == Flatten(carrier.pixels[..n + 1], Low332) by {
          FlattenSnoc(carrier.pixels, Low332, n);
        }
        cl := cl + 1;
      }
      rw, start := rw + 1, start + w;
    }
    assert carrier.pixels[..start] == carrier.pixels;
  }

  /** The second loop of `extract`: a `w` x `h` raster whose pixel `n` is `int(_, 2)` of
      digits `8n .. 8n + 8` of the stream. */
  method DecodePixels(bitData: seq<Bit>, w: nat, h: nat) returns (out: Raster<Byte>)
    requires |bitData| == 8 * (w * h)
    ensures out == Raster(w, h, Octets(bitData))
  {
    var size := |bitData| / 8;
    assert size == RowStart(w, h) by { RowStartProduct(w, h); }
    var pixels := new Byte[size](_ => 0);
    var rw, start := 0, 0;
    while rw < h
      invariant 0 <= rw <= h
      invariant start == RowStart(w, rw) && start <= size
      invariant forall k :: 0 <= k < start ==> pixels[k] == FromBits(bitData[8 * k .. 8 * k + 8])
    {
      RowStartMono(w, rw + 1, h);
      var cl := 0;
      while cl < w
        invariant 0 <= cl <= w
        invariant start + cl <= size
        invariant forall k :: 0 <= k < start + cl ==> pixels[k] == FromBits(bitData[8 * k .. 8 * k + 8])
      {
        var n := start + cl;
        var z := n * 8;
        pixels[n] := Octet(bitData[z .. z + 8]);
        cl := cl + 1;
      }
      rw, start := rw + 1, start + w;
    }
    assert pixels[..] == Octets(bitData);
    out := Raster(w, h, pixels[..]);
  }

  /** `extract`: the raster of hidden values, of the carrier's size. */
  method Extract(carrier: Raster<RGB>) returns (out: Raster<Byte>)
    requires carrier.Valid()
    ensures out == ExtractImage(carrier)
  {
    var bitData := CarrierBitstream(carrier);
    OctetsExtractImage(carrier);
    out := DecodePixels(bitData, carrier.w, carrier.h);
  }
}
