/** Binary-digit strings as the codec builds them: `"{0:08b}".format(v)` and `int(s, 2)`,
    with digits modelled as the integers 0 and 1, most significant digit first. */
module Bits {

  type Bit = b: int | 0 <= b < 2

  /** An 8-bit channel or palette value. */
  type Byte = v: int | 0 <= v < 256

  function Pow2(n: nat): (p: nat)
    ensures p >= 1
  {
    if n == 0 then 1 else 2 * Pow2(n - 1)
  }

  /** `int(s, 2)`: the unsigned value of a big-endian digit string. */
  function FromBits(s: seq<Bit>): (v: nat)
    ensures v < Pow2(|s|)
  {
    if s == [] then 0 else 2 * FromBits(s[..|s| - 1]) + s[|s| - 1]
  }

  /** The `width`-digit big-endian binary form of `v`, zero-padded on the left. */
  function ToBits(v: nat, width: nat): (r: seq<Bit>)
    requires v < Pow2(width)
    ensures |r| == width
  {
    if width == 0 then [] else ToBits(v / 2, width - 1) + [v % 2]
  }

  /** Reading back the digits of `v` gives `v`. */
  lemma {:induction false} FromBitsToBits(v: nat, width: nat)
    requires v < Pow2(width)
    ensures FromBits(ToBits(v, width)) == v
  {
    if width > 0 {
      FromBitsToBits(v / 2, width - 1);
      var s := ToBits(v, width);
      assert s[..|s| - 1] == ToBits(v / 2, width - 1);
    }
  }

  /** `"{0:08b}".format(v)` for a channel value. */
  function Bits8(v: Byte): (r: seq<Bit>)
    ensures |r| == 8
  {
    assert Pow2(8) == 256;
    ToBits(v, 8)
  }

  /** `"{0:08b}".format(v)` for any natural number: at least eight digits, and exactly as many
      as the binary form of `v` needs when that is more than eight. */
  function Format08b(v: nat): (r: seq<Bit>)
    ensures |r| >= 8
    ensures |r| == 8 <==> v < 256
  {
    if v < 256 then Bits8(v) else Format08b(v / 2) + [v % 2]
  }

  /** Whatever its width, the digit string of `v` reads back as `v`. */
  lemma {:induction false} FromFormat08b(v: nat)
    ensures FromBits(Format08b(v)) == v
  {
    if v < 256 {
      assert Pow2(8) == 256;
      FromBitsToBits(v, 8);
    } else {
      FromFormat08b(v / 2);
      var s := Format08b(v);
      assert s[..|s| - 1] == Format08b(v / 2);
    }
  }

  /** `int(s, 2)` for an eight-digit slice: always a byte value. */
  function Octet(s: seq<Bit>): (v: Byte)
    requires |s| == 8
    ensures v == FromBits(s)
  {
    assert Pow2(8) == 256;
    FromBits(s)
  }

  /** The values of the consecutive eight-digit slices `s[8k .. 8k + 8]`; trailing digits
      that do not fill a slice are dropped, as `len(s) // 8` drops them. */
  function Octets(s: seq<Bit>): (r: seq<Byte>)
    ensures |r| == |s| / 8
    ensures forall k :: 0 <= k < |r| ==> 8 * k + 8 <= |s| && r[k] == FromBits(s[8 * k .. 8 * k + 8])
  {
    seq(|s| / 8, k requires 0 <= k < |s| / 8 => Octet(s[8 * k .. 8 * k + 8]))
  }

  /** The concatenation `f(xs[0]) + f(xs[1]) + ...`, built by appending at the end as the
      codec's `+=` loops do. */
  function Flatten<T>(xs: seq<T>, f: T -> seq<Bit>): seq<Bit>
  {
    if xs == [] then [] else Flatten(xs[..|xs| - 1], f) + f(xs[|xs| - 1])
  }

  lemma FlattenSnoc<T>(xs: seq<T>, f: T -> seq<Bit>, k: nat)
    requires k < |xs|
    ensures Flatten(xs[..k + 1], f) == Flatten(xs[..k], f) + f(xs[k])
  {
    assert xs[..k + 1][..k] == xs[..k];
  }

  /** Flattening a concatenation flattens the two parts one after the other. */
  lemma {:induction false} FlattenAppend<T>(xs: seq<T>, ys: seq<T>, f: T -> seq<Bit>)
    ensures Flatten(xs + ys, f) == Flatten(xs, f) + Flatten(ys, f)
  {
    if ys == [] {
      assert xs + ys == xs;
    } else {
      var ys' := ys[..|ys| - 1];
      assert (xs + ys)[..|xs + ys| - 1] == xs + ys';
      FlattenAppend(xs, ys', f);
    }
  }

  /** When every piece has `width` digits, the concatenation has `width` digits per piece. */
  lemma {:induction false} FlattenLength<T>(xs: seq<T>, f: T -> seq<Bit>, width: nat)
    requires forall i :: 0 <= i < |xs| ==> |f(xs[i])| == width
    ensures |Flatten(xs, f)| == width * |xs|
  {
    if xs != [] {
      var ys := xs[..|xs| - 1];
      assert forall i :: 0 <= i < |ys| ==> ys[i] == xs[i];
      FlattenLength(ys, f, width);
      assert width * |xs| == width * |ys| + width;
    }
  }

  /** ... and piece `n` sits at offset `width * n`. */
  lemma {:induction false} FlattenChunk<T>(xs: seq<T>, f: T -> seq<Bit>, width: nat, n: nat)
    requires forall i :: 0 <= i < |xs| ==> |f(xs[i])| == width
    requires n < |xs|
    ensures width * n + width <= |Flatten(xs, f)|
    ensures Flatten(xs, f)[width * n .. width * n + width] == f(xs[n])
  {
    var ys := xs[..|xs| - 1];
    var last := xs[|xs| - 1];
    assert forall i :: 0 <= i < |ys| ==> ys[i] == xs[i];
    FlattenLength(ys, f, width);
    var a := Flatten(ys, f);
    assert Flatten(xs, f) == a + f(last);
    if n == |ys| {
      assert |a| == width * n;
    } else {
      FlattenChunk(ys, f, width, n);
      assert (a + f(last))[width * n .. width * n + width] == a[width * n .. width * n + width];
    }
  }

  /** When pieces `0 .. k` are the consecutive `width`-digit slices of `g`, their
      concatenation is the first `width * k` digits of `g`. */
  lemma {:induction false} FlattenSlices<T>(xs: seq<T>, f: T -> seq<Bit>, width: nat, g: seq<Bit>, k: nat)
    requires k <= |xs| && width * k <= |g|
    requires forall i :: 0 <= i < k ==> width * i + width <= |g| && f(xs[i]) == g[width * i .. width * i + width]
    ensures Flatten(xs[..k], f) == g[..width * k]
  {
    if k > 0 {
      var j := width * (k - 1);
      assert j + width == width * k;
      FlattenSlices(xs, f, width, g, k - 1);
      FlattenSnoc(xs, f, k - 1);
      assert g[..j + width] == g[..j] + g[j .. j + width];
    }
  }

  lemma MulAtLeast(d: nat, k: int)
    requires k >= 1
    ensures d * k >= d
  {
    var m := k - 1;
    assert d * k == d * m + d;
  }

  lemma DivModUnique(v: int, d: int, q: int, r: int)
    requires d > 0 && v == q * d + r && 0 <= r < d
    ensures v / d == q && v % d == r
  {
    var q', r' := v / d, v % d;
    assert v == d * q' + r';
    assert d * (q - q') == r' - r;
    if q > q' {
      MulAtLeast(d, q - q');
    } else if q < q' {
      MulAtLeast(d, q' - q);
    }
  }

  /** When `v = q * 2^lo + r` with `r < 2^lo`, the first `hi` of the `hi + lo` digits of `v`
      are the digits of `q` and the remaining `lo` digits those of `r`. */
  lemma {:induction false} Fields(v: nat, hi: nat, lo: nat, q: nat, r: nat)
    requires v < Pow2(hi + lo)
    requires v == q * Pow2(lo) + r && r < Pow2(lo)
    ensures q < Pow2(hi)
    ensures ToBits(v, hi + lo)[..hi] == ToBits(q, hi)
    ensures ToBits(v, hi + lo)[hi..] == ToBits(r, lo)
  {
    var s := ToBits(v, hi + lo);
    var a, b := s[..hi], s[hi..];
    assert a + b == s && |b| == lo;
    SplitValue(v, hi, lo);
    DivModUnique(v, Pow2(lo), FromBits(a), FromBits(b));
    DivModUnique(v, Pow2(lo), q, r);
    ToBitsFromBits(a);
    ToBitsFromBits(b);
  }

  /** The leading `hi` digits of `v` read as its quotient by `2^lo`, the rest as the remainder. */
  lemma SplitValue(v: nat, hi: nat, lo: nat)
    requires v < Pow2(hi + lo)
    ensures v == FromBits(ToBits(v, hi + lo)[..hi]) * Pow2(lo) + FromBits(ToBits(v, hi + lo)[hi..])
  {
    var s := ToBits(v, hi + lo);
    var a, b := s[..hi], s[hi..];
    assert |b| == lo && a + b == s;
    assert FromBits(s) == FromBits(a) * Pow2(lo) + FromBits(b) by {
      FromBitsAppend(a, b);
    }
    FromBitsToBits(v, hi + lo);
  }

  /** Digits `a .. b` of the `k` digits starting at `j`. */
  lemma Subslice(s: seq<Bit>, j: nat, k: nat, a: nat, b: nat)
    requires j + k <= |s| && a <= b <= k
    ensures s[j .. j + k][a .. b] == s[j + a .. j + b]
  {
    var t := s[j .. j + k];
    assert forall i :: 0 <= i < b - a ==> t[a .. b][i] == t[a + i];
  }

  lemma {:induction false} FromBitsAppend(a: seq<Bit>, b: seq<Bit>)
    ensures FromBits(a + b) == FromBits(a) * Pow2(|b|) + FromBits(b)
  {
    if b == [] {
      assert a + b == a;
    } else {
      var b', x := b[..|b| - 1], b[|b| - 1];
      assert (a + b)[..|a + b| - 1] == a + b';
      assert FromBits(a + b) == 2 * FromBits(a + b') + x;
      FromBitsAppend(a, b');
      Twice(FromBits(a), Pow2(|b'|));
    }
  }

  lemma Twice(x: int, p: int)
    ensures 2 * (x * p) == x * (2 * p)
  {
  }

  /** Reading a digit string and writing it back at the same width gives it back. */
  lemma {:induction false} ToBitsFromBits(s: seq<Bit>)
    ensures ToBits(FromBits(s), |s|) == s
  {
    if s != [] {
      var s' := s[..|s| - 1];
      ToBitsFromBits(s');
      assert s == s' + [s[|s| - 1]];
    }
  }
}
