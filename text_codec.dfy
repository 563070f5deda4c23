/** The text codec: `weave_txt` frames a text with a closing sentinel and padding, writes it
    as 8-digit character codes and plants the digits six per pixel in the low 2/2/2 bits of
    red/green/blue; `extract_txt` reads the low 2/2/2 bits back, decodes them eight at a
    time and cuts the result at the first sentinel. */
module TextCodec {
  import opened Bits
  import opened Rasters

  /** The closing symbol `{#ß#}` appended to every text; `ß` is code point 223. */
  const Sentinel: string := "{#\U{DF}#}"

  /** `"0" * k`. */
  function Zeros(k: nat): string
  {
    seq(k, _ => '0')
  }

  /** The text `weave_txt` encodes: the text, the sentinel, and then one `'0'` for every
      unit of the framed length modulo 6 (a count of characters, not of bits). */
  function Framed(txt: string): string
  {
    var t := txt + Sentinel;
    t + Zeros(|t| % 6)
  }

  /** `"{0:08b}".format(ord(c))`: eight digits for a code point below 256, more above. */
  function CharBits(c: char): seq<Bit>
  {
    Format08b(c as int)
  }

  /** The message stream `bmsg` of `weave_txt`. */
  function Payload(txt: string): seq<Bit>
  {
    Flatten(Framed(txt), CharBits)
  }

  /** Every character is one that `chr` of a byte can produce: code points below 256. */
  predicate Narrow(s: string)
  {
    forall i :: 0 <= i < |s| ==> s[i] as int < 256
  }

  /** Six caller-supplied random digits for one pixel, read as a number (the source draws
      them with `randint(0, 1)`, one digit at a time). */
  type Filler = v: int | 0 <= v < 64

  /** The six digits `rn[0] .. rn[5]` of a filler value, most significant first. */
  function FillerBits(f: Filler): (rn: seq<Bit>)
    ensures |rn| == 6 && FromBits(rn) == f
  {
    assert Pow2(6) == 64;
    FromBitsToBits(f, 6);
    ToBits(f, 6)
  }

  /** The six digits pixel `n` receives: message digits `6n .. 6n + 6` while a whole group
      of six is left, the filler otherwise. */
  function TextDigits(bmsg: seq<Bit>, filler: seq<Filler>, n: nat): (d: seq<Bit>)
    requires n < |filler|
    ensures |d| == 6
  {
    if n < |bmsg| / 6 then bmsg[6 * n .. 6 * n + 6] else FillerBits(filler[n])
  }

  /** Carrier pixel `p` with its low two digits per channel replaced by `d`, two per channel:
      the first six digits of each channel followed by two digits of `d`, read back with
      `int(_, 2)`. */
  function Plant(p: RGB, d: seq<Bit>): RGB
    requires |d| == 6
  {
    RGB(Octet(Bits8(p.r)[..6] + d[..2]), Octet(Bits8(p.g)[..6] + d[2..4]), Octet(Bits8(p.b)[..6] + d[4..]))
  }

  /** What `weave_txt` produces, once the capacity check has passed, from a carrier, the
      message stream and one filler value per pixel. */
  function WovenText(c: Raster<RGB>, bmsg: seq<Bit>, filler: seq<Filler>): Raster<RGB>
    requires |filler| == |c.pixels|
  {
    Raster(c.w, c.h, seq(|c.pixels|, n requires 0 <= n < |c.pixels| => Plant(c.pixels[n], TextDigits(bmsg, filler, n))))
  }

  /** The six digits `extract_txt` takes from one pixel: the last two of red, green and blue. */
  function Low222(p: RGB): seq<Bit>
  {
    Bits8(p.r)[6..] + Bits8(p.g)[6..] + Bits8(p.b)[6..]
  }

  /** `chr(int(s[8k : 8k + 8], 2))` for every whole group of eight digits. */
  function Chars(s: seq<Bit>): (r: string)
    ensures |r| == |s| / 8
    ensures forall k :: 0 <= k < |r| ==> 8 * k + 8 <= |s| && r[k] as int == FromBits(s[8 * k .. 8 * k + 8])
  {
    seq(|s| / 8, k requires 0 <= k < |s| / 8 => Octet(s[8 * k .. 8 * k + 8]) as char)
  }

  /** `sep` occurs in `s` at index `i`. */
  predicate OccursAt(s: string, sep: string, i: nat)
  {
    i + |sep| <= |s| && s[i .. i + |sep|] == sep
  }

  predicate Contains(s: string, sep: string)
  {
    exists i :: 0 <= i <= |s| && OccursAt(s, sep, i)
  }

  /** `s.split(sep)[0]`. */
  function BeforeFirst(s: string, sep: string): string
    requires sep != []
  {
    if |s| < |sep| then s
    else if s[..|sep|] == sep then []
    else [s[0]] + BeforeFirst(s[1..], sep)
  }

  /** What `extract_txt` returns for a carrier. */
  function ExtractText(c: Raster<RGB>): string
  {
    BeforeFirst(Chars(Flatten(c.pixels, Low222)), Sentinel)
  }

  // ---------------------------------------------------------------------------------------
  // The cut at the first separator

  /** `s.split(sep)[0]` is the longest prefix of `s` in which no occurrence of `sep` starts:
      when it is shorter than `s`, an occurrence starts right after it. */
  lemma {:induction false} BeforeFirstSpec(s: string, sep: string)
    requires sep != []
    ensures |BeforeFirst(s, sep)| <= |s| && BeforeFirst(s, sep) == s[..|BeforeFirst(s, sep)|]
    ensures forall i :: 0 <= i < |BeforeFirst(s, sep)| ==> !OccursAt(s, sep, i)
    ensures |BeforeFirst(s, sep)| < |s| ==> OccursAt(s, sep, |BeforeFirst(s, sep)|)
  {
    if |s| >= |sep| && s[..|sep|] != sep {
      var t := s[1..];
      BeforeFirstSpec(t, sep);
      var r, r' := BeforeFirst(s, sep), BeforeFirst(t, sep);
      assert r == [s[0]] + r';
      assert r == s[..|r|] by {
        assert s[..|r|] == [s[0]] + t[..|r'|];
      }
      forall i | 1 <= i <= |r|
        ensures OccursAt(s, sep, i) == OccursAt(t, sep, i - 1)
      {
        if i + |sep| <= |s| {
          Shift(s, i, |sep|);
        }
      }
      assert !OccursAt(s, sep, 0);
    }
  }

  lemma Shift(s: string, i: nat, k: nat)
    requires 1 <= i && i + k <= |s|
    ensures s[i .. i + k] == s[1..][i - 1 .. i - 1 + k]
  {
  }

  /** ... and it is the whole of `s` exactly when `sep` does not occur in `s`, which is how
      `split` behaves on a text without the separator. */
  lemma BeforeFirstWhole(s: string, sep: string)
    requires sep != []
    ensures BeforeFirst(s, sep) == s <==> !Contains(s, sep)
  {
    BeforeFirstSpec(s, sep);
    var r := BeforeFirst(s, sep);
    if r != s {
      assert OccursAt(s, sep, |r|);
    } else {
      forall i | 0 <= i <= |s|
        ensures !OccursAt(s, sep, i)
      {
        if i < |r| {
        } else {
          assert i + |sep| > |s|;
        }
      }
    }
  }

  /** The only occurrence of the sentinel's first character in the sentinel is at its start,
      so the sentinel has no proper border: no occurrence of it can start inside another. */
  lemma SentinelUnbordered()
    ensures |Sentinel| == 5
    ensures forall d :: 1 <= d < |Sentinel| ==> Sentinel[d] != Sentinel[0]
  {
  }

  /** In a text followed by the sentinel, the first sentinel is the appended one, provided
      the text does not contain the sentinel itself. */
  lemma FirstSentinel(u: string, rest: string)
    requires !Contains(u, Sentinel)
    ensures BeforeFirst(u + Sentinel + rest, Sentinel) == u
  {
    var s := u + Sentinel + rest;
    SentinelUnbordered();
    BeforeFirstSpec(s, Sentinel);
    var r := BeforeFirst(s, Sentinel);
    assert OccursAt(s, Sentinel, |u|) by {
      assert s[|u| .. |u| + 5] == Sentinel;
    }
    forall i | 0 <= i < |u|
      ensures !OccursAt(s, Sentinel, i)
    {
      if i + 5 <= |u| {
        assert s[i .. i + 5] == u[i .. i + 5];
        assert !OccursAt(u, Sentinel, i);
      } else {
        var d := |u| - i;
        assert s[i .. i + 5][d] == s[|u|] == Sentinel[0];
        assert Sentinel[d] != Sentinel[0];
      }
    }
    assert |r| == |u|;
    assert s[..|u|] == u;
  }

  // ---------------------------------------------------------------------------------------
  // Framing and the message stream

  lemma FramedNarrow(txt: string)
    requires Narrow(txt)
    ensures Narrow(txt + Sentinel) && Narrow(Framed(txt))
  {
    var t := txt + Sentinel;
    assert forall i :: 0 <= i < |t| ==> t[i] == if i < |txt| then txt[i] else Sentinel[i - |txt|];
  }

  /** The message is the framed text written as eight digits per character; so its
      length is eight times the padded length, `8 * (L + L % 6)` with `L = |txt| + 5`. */
  lemma PayloadFraming(txt: string)
    requires Narrow(txt)
    ensures |Payload(txt)| == 8 * |Framed(txt)| == 8 * ((|txt| + 5) + (|txt| + 5) % 6)
    ensures forall k :: 0 <= k < |Framed(txt)| ==> Payload(txt)[8 * k .. 8 * k + 8] == Bits8(Framed(txt)[k] as int)
  {
    var t := Framed(txt);
    FramedNarrow(txt);
    FlattenLength(t, CharBits, 8);
    forall k | 0 <= k < |t|
      ensures Payload(txt)[8 * k .. 8 * k + 8] == Bits8(t[k] as int)
    {
      FlattenChunk(t, CharBits, 8, k);
    }
  }

  /** A wide character takes more than eight digits: `"{0:08b}"` never fails, it widens. */
  lemma WideCharBits(c: char)
    requires c as int >= 256
    ensures |CharBits(c)| > 8 && FromBits(CharBits(c)) == c as int
  {
    FromFormat08b(c as int);
  }

  lemma TailArithmetic(L: nat)
    ensures 6 * (8 * (L + L % 6) / 6) >= 8 * L
  {
    var a, r := L / 6, L % 6;
    var m := 8 * (L + r);
    assert m == 6 * (8 * a + 16 * r / 6) + 16 * r % 6;
    DivModUnique(m, 6, 8 * a + 16 * r / 6, 16 * r % 6);
  }

  /** The digits `// 6` leaves unplanted (two or four when `len(bmsg)` is not a multiple of
      six) lie after the text and the sentinel, in the padding. */
  lemma PaddingCoversTail(txt: string)
    requires Narrow(txt)
    ensures 8 * (|txt| + |Sentinel|) <= 6 * (|Payload(txt)| / 6)
  {
    PayloadFraming(txt);
    TailArithmetic(|txt| + 5);
  }

  /** A 2 x 1 carrier cannot take `"Hi"`: framed it is eight characters, 64 digits, more
      than the 12 digits two pixels hold. */
  lemma CapacityScenario()
    ensures |Payload("Hi")| == 64
    ensures !(|Payload("Hi")| < 6 * (2 * 1))
  {
    assert Narrow("Hi");
    PayloadFraming("Hi");
  }

  // ---------------------------------------------------------------------------------------
  // The planted pixels

  /** A planted pixel: each channel is the carrier channel's first six digits followed by
      two digits of `d`. */
  lemma PlantBits(p: RGB, d: seq<Bit>)
    requires |d| == 6
    ensures Bits8(Plant(p, d).r) == Bits8(p.r)[..6] + d[..2]
    ensures Bits8(Plant(p, d).g) == Bits8(p.g)[..6] + d[2..4]
    ensures Bits8(Plant(p, d).b) == Bits8(p.b)[..6] + d[4..]
  {
    ToBitsFromBits(Bits8(p.r)[..6] + d[..2]);
    ToBitsFromBits(Bits8(p.g)[..6] + d[2..4]);
    ToBitsFromBits(Bits8(p.b)[..6] + d[4..]);
  }

  /** Reading a planted pixel's low 2/2/2 digits gives back what was planted. */
  lemma Low222Plant(p: RGB, d: seq<Bit>)
    requires |d| == 6
    ensures Low222(Plant(p, d)) == d
  {
    PlantBits(p, d);
    assert d == d[..2] + d[2..4] + d[4..];
  }

  /** One pixel of `weave_txt`: the carrier's high six digits of every channel are kept; the
      low two digits per channel hold message digits `6n .. 6n + 6` when `n < len(bmsg) // 6`
      and the pixel's filler otherwise. */
  lemma WovenTextLayout(c: Raster<RGB>, bmsg: seq<Bit>, filler: seq<Filler>, n: nat)
    requires |filler| == |c.pixels| && n < |c.pixels|
    ensures Bits8(WovenText(c, bmsg, filler).pixels[n].r)[..6] == Bits8(c.pixels[n].r)[..6]
    ensures Bits8(WovenText(c, bmsg, filler).pixels[n].g)[..6] == Bits8(c.pixels[n].g)[..6]
    ensures Bits8(WovenText(c, bmsg, filler).pixels[n].b)[..6] == Bits8(c.pixels[n].b)[..6]
    ensures n < |bmsg| / 6 ==> 6 * n + 6 <= |bmsg| && Low222(WovenText(c, bmsg, filler).pixels[n]) == bmsg[6 * n .. 6 * n + 6]
    ensures n >= |bmsg| / 6 ==> Low222(WovenText(c, bmsg, filler).pixels[n]) == FillerBits(filler[n])
  {
    var d := TextDigits(bmsg, filler, n);
    PlantBits(c.pixels[n], d);
    Low222Plant(c.pixels[n], d);
  }

  /** The first `k` planted pixels, read back, spell the first `6k` message digits. */
  lemma WovenPrefix(c: Raster<RGB>, bmsg: seq<Bit>, filler: seq<Filler>, k: nat)
    requires |filler| == |c.pixels| && k <= |c.pixels| && k <= |bmsg| / 6
    ensures 6 * k <= |bmsg|
    ensures Flatten(WovenText(c, bmsg, filler).pixels[..k], Low222) == bmsg[..6 * k]
  {
    var ps := WovenText(c, bmsg, filler).pixels;
    forall i | 0 <= i < k
      ensures 6 * i + 6 <= |bmsg| && Low222(ps[i]) == bmsg[6 * i .. 6 * i + 6]
    {
      WovenTextLayout(c, bmsg, filler, i);
    }
    FlattenSlices(ps, Low222, 6, bmsg, k);
  }

  // ---------------------------------------------------------------------------------------
  // Decoding

  /** Decoding a stream that starts with `a` starts with the decoding of `a`. */
  lemma CharsPrefix(a: seq<Bit>, x: seq<Bit>, len: nat)
    requires |a| == 8 * len
    ensures len <= |Chars(a + x)| && Chars(a + x)[..len] == Chars(a)
  {
    var r, t := Chars(a + x)[..len], Chars(a);
    forall k | 0 <= k < len
      ensures r[k] == t[k]
    {
      assert (a + x)[8 * k .. 8 * k + 8] == a[8 * k .. 8 * k + 8];
    }
  }

  /** Character `k` of a decoded narrow text. */
  lemma CharsFlattenAt(u: string, k: nat)
    requires Narrow(u) && k < |u|
    ensures |Chars(Flatten(u, CharBits))| == |u|
    ensures Chars(Flatten(u, CharBits))[k] == u[k]
  {
    FlattenLength(u, CharBits, 8);
    FlattenChunk(u, CharBits, 8, k);
    assert Pow2(8) == 256;
    FromBitsToBits(u[k] as int, 8);
  }

  /** Decoding the eight-digit codes of a narrow text gives the text back. */
  lemma CharsFlatten(u: string)
    requires Narrow(u)
    ensures Chars(Flatten(u, CharBits)) == u
  {
    FlattenLength(u, CharBits, 8);
    var r := Chars(Flatten(u, CharBits));
    forall k | 0 <= k < |u|
      ensures r[k] == u[k]
    {
      CharsFlattenAt(u, k);
    }
  }

  /** `extract_txt` decodes exactly `(6 * W * H) // 8` characters, every one a byte value
      (so the `"[?]"` fallback is never taken), and returns a prefix of them. */
  lemma ExtractedText(c: Raster<RGB>)
    ensures |Flatten(c.pixels, Low222)| == 6 * |c.pixels|
    ensures |Chars(Flatten(c.pixels, Low222))| == 6 * |c.pixels| / 8
    ensures Narrow(Chars(Flatten(c.pixels, Low222)))
    ensures Narrow(ExtractText(c))
    ensures |ExtractText(c)| <= |Chars(Flatten(c.pixels, Low222))|
    ensures ExtractText(c) == Chars(Flatten(c.pixels, Low222))[..|ExtractText(c)|]
  {
    FlattenLength(c.pixels, Low222, 6);
    var s := Chars(Flatten(c.pixels, Low222));
    BeforeFirstSpec(s, Sentinel);
    var r := ExtractText(c);
    assert forall i :: 0 <= i < |r| ==> r[i] == s[i];
  }

  /** A text with a character at or above code point 256 never comes back from any carrier. */
  lemma WideCharLost(c: Raster<RGB>, txt: string, i: nat)
    requires i < |txt| && txt[i] as int >= 256
    ensures ExtractText(c) != txt
  {
    ExtractedText(c);
  }

  // ---------------------------------------------------------------------------------------
  // The round trip

  /** Read back, a text-woven carrier gives the `len(bmsg) // 6` planted groups of six
      message digits first, and then the filler of the remaining pixels. */
  lemma WovenStream(c: Raster<RGB>, bmsg: seq<Bit>, filler: seq<Filler>)
    requires |filler| == |c.pixels| && |bmsg| / 6 <= |c.pixels|
    ensures 6 * (|bmsg| / 6) <= |bmsg|
    ensures Flatten(WovenText(c, bmsg, filler).pixels, Low222)
         == bmsg[..6 * (|bmsg| / 6)] + Flatten(WovenText(c, bmsg, filler).pixels[|bmsg| / 6..], Low222)
  {
    var m := |bmsg| / 6;
    var ps := WovenText(c, bmsg, filler).pixels;
    WovenPrefix(c, bmsg, filler, m);
    assert ps == ps[..m] + ps[m..];
    FlattenAppend(ps[..m], ps[m..], Low222);
  }

  /** The planted part of the message (its first `6 * (len(bmsg) // 6)` digits) starts
      with the codes of the text and the sentinel. */
  lemma PayloadHead(txt: string)
    requires Narrow(txt)
    ensures |Flatten(txt + Sentinel, CharBits)| == 8 * (|txt| + |Sentinel|) <= 6 * (|Payload(txt)| / 6)
    ensures Payload(txt)[..8 * (|txt| + |Sentinel|)] == Flatten(txt + Sentinel, CharBits)
  {
    var u := txt + Sentinel;
    FramedNarrow(txt);
    FlattenAppend(u, Zeros(|u| % 6), CharBits);
    FlattenLength(u, CharBits, 8);
    PaddingCoversTail(txt);
  }

  /** The digits read back from a text-woven carrier start with the codes of the text and
      the sentinel. */
  lemma StreamHead(c: Raster<RGB>, txt: string, filler: seq<Filler>)
    requires |filler| == |c.pixels|
    requires Narrow(txt) && |Payload(txt)| < 6 * |c.pixels|
    ensures 8 * (|txt| + |Sentinel|) <= |Flatten(WovenText(c, Payload(txt), filler).pixels, Low222)|
    ensures Flatten(WovenText(c, Payload(txt), filler).pixels, Low222)[..8 * (|txt| + |Sentinel|)]
         == Flatten(txt + Sentinel, CharBits)
  {
    var bmsg := Payload(txt);
    PayloadHead(txt);
    WovenStream(c, bmsg, filler);
  }

  /** ... so the characters decoded from it start with the text and the sentinel. */
  lemma DecodedHead(c: Raster<RGB>, txt: string, filler: seq<Filler>)
    requires |filler| == |c.pixels|
    requires Narrow(txt) && |Payload(txt)| < 6 * |c.pixels|
    ensures |txt| + |Sentinel| <= |Chars(Flatten(WovenText(c, Payload(txt), filler).pixels, Low222))|
    ensures Chars(Flatten(WovenText(c, Payload(txt), filler).pixels, Low222))[..|txt| + |Sentinel|] == txt + Sentinel
  {
    var L, u := |txt| + |Sentinel|, txt + Sentinel;
    var s := Flatten(WovenText(c, Payload(txt), filler).pixels, Low222);
    var a := Flatten(u, CharBits);
    StreamHead(c, txt, filler);
    FramedNarrow(txt);
    FlattenLength(u, CharBits, 8);
    assert s == a + s[8 * L..];
    CharsPrefix(a, s[8 * L..], L);
    CharsFlatten(u);
  }

  /** Text round trip: a narrow text without the sentinel, woven into a carrier large enough
      for it, is extracted unchanged, whatever the filler. */
  lemma TextRoundTrip(c: Raster<RGB>, txt: string, filler: seq<Filler>)
    requires |filler| == |c.pixels|
    requires Narrow(txt) && !Contains(txt, Sentinel)
    requires |Payload(txt)| < 6 * |c.pixels|
    ensures ExtractText(WovenText(c, Payload(txt), filler)) == txt
  {
    var full := Chars(Flatten(WovenText(c, Payload(txt), filler).pixels, Low222));
    DecodedHead(c, txt, filler);
    assert full == txt + Sentinel + full[|txt| + |Sentinel|..];
    FirstSentinel(txt, full[|txt| + |Sentinel|..]);
  }

  // ---------------------------------------------------------------------------------------
  // The operations

  /** The first part of `weave_txt`: frame the text and write every character's code. */
  method EncodeMessage(txt: string) returns (bmsg: seq<Bit>)
    ensures bmsg == Payload(txt)
  {
    var t := txt + Sentinel;
    t := t + Zeros(|t| % 6);
    bmsg := [];
    var i := 0;
    while i < |t|
      invariant 0 <= i <= |t|
      invariant bmsg == Flatten(t[..i], CharBits)
    {
      var a := Format08b(t[i] as int);
      bmsg := bmsg + a;
      assert bmsg == Flatten(t[..i + 1], CharBits) by {
        FlattenSnoc(t, CharBits, i);
      }
      i := i + 1;
    }
    assert t[..i] == t;
  }

  /** Pixel `n` of `WovenText` while message digits are left, written with slices of the
      whole message as `weave_txt` takes them, from `j = n * 6`. */
  lemma PlantMessage(c: Raster<RGB>, bmsg: seq<Bit>, filler: seq<Filler>, n: nat, j: nat)
    requires |filler| == |c.pixels| && n < |c.pixels| && n < |bmsg| / 6 && j == n * 6
    ensures j + 6 <= |bmsg|
    ensures WovenText(c, bmsg, filler).pixels[n]
         == RGB(Octet(Bits8(c.pixels[n].r)[..6] + bmsg[j .. j + 2]), Octet(Bits8(c.pixels[n].g)[..6] + bmsg[j + 2 .. j + 4]),
                Octet(Bits8(c.pixels[n].b)[..6] + bmsg[j + 4 .. j + 6]))
  {
    Subslice(bmsg, j, 6, 0, 2);
    Subslice(bmsg, j, 6, 2, 4);
    Subslice(bmsg, j, 6, 4, 6);
  }

  /** Pixel `n` of `WovenText` once the message is used up: the filler digits `rn`. */
  lemma PlantFiller(c: Raster<RGB>, bmsg: seq<Bit>, filler: seq<Filler>, n: nat, rn: seq<Bit>)
    requires |filler| == |c.pixels| && n < |c.pixels| && n >= |bmsg| / 6 && rn == FillerBits(filler[n])
    ensures WovenText(c, bmsg, filler).pixels[n]
         == RGB(Octet(Bits8(c.pixels[n].r)[..6] + [rn[0], rn[1]]), Octet(Bits8(c.pixels[n].g)[..6] + [rn[2], rn[3]]),
                Octet(Bits8(c.pixels[n].b)[..6] + [rn[4], rn[5]]))
  {
    assert [rn[0], rn[1]] == rn[..2] && [rn[2], rn[3]] == rn[2..4] && [rn[4], rn[5]] == rn[4..];
  }

  /** The pixel loop of `weave_txt`: a fresh image of the carrier's size whose pixel `n` is
      carrier pixel `n` with six digits planted, message or filler. */
  method PlantPixels(carrier: Raster<RGB>, bmsg: seq<Bit>, filler: seq<Filler>) returns (woven: Raster<RGB>)
    requires carrier.Valid() && |filler| == |carrier.pixels|
    ensures woven == WovenText(carrier, bmsg, filler)
  {
    var w, h := carrier.w, carrier.h;
    ghost var target := WovenText(carrier, bmsg, filler).pixels;
    assert |carrier.pixels| == RowStart(w, h) by { RowStartProduct(w, h); }
    var pixels := new RGB[|carrier.pixels|](_ => Black);
    var rw, start := 0, 0;
    while rw < h
      invariant 0 <= rw <= h
      invariant start == RowStart(w, rw) && start <= |carrier.pixels|
      invariant forall k :: 0 <= k < start ==> pixels[k] == target[k]
    {
      RowStartMono(w, rw + 1, h);
      var cl := 0;
      while cl < w
        invariant 0 <= cl <= w
        invariant start + cl <= |carrier.pixels|
        invariant forall k :: 0 <= k < start + cl ==> pixels[k] == target[k]
      {
        var n := start + cl;
        var px := carrier.pixels[n];
        var cv := [Bits8(px.r), Bits8(px.g), Bits8(px.b)];
        var rn := FillerBits(filler[n]);
        var r0, g0, b0 := cv[0][..6] + [rn[0], rn[1]], cv[1][..6] + [rn[2], rn[3]], cv[2][..6] + [rn[4], rn[5]];
        if n < |bmsg| / 6 {
          var j := n * 6;
          PlantMessage(carrier, bmsg, filler, n, j);
          r0, g0, b0 := cv[0][..6] + bmsg[j .. j + 2], cv[1][..6] + bmsg[j + 2 .. j + 4], cv[2][..6] + bmsg[j + 4 .. j + 6];
        } else {
          PlantFiller(carrier, bmsg, filler, n, rn);
        }
        pixels[n] := RGB(Octet(r0), Octet(g0), Octet(b0));
        cl := cl + 1;
      }
      rw, start := rw + 1, start + w;
    }
    assert pixels[..] == target;
    woven := Raster(w, h, pixels[..]);
  }

  /** `len(bmsg) / 6 < w * h` in real division is `len(bmsg) < 6 * w * h`. */
  lemma CapacityReal(size: nat, area: nat)
    ensures (size as real) / 6.0 < area as real <==> size < 6 * area
  {
  }

  /** `weave_txt`: when the message fits strictly (`len(bmsg) < 6 * w * h`), the planted
      carrier, with the carrier deleted only after every pixel is computed; otherwise the
      capacity error, no output and no deletion. */
  method WeaveTxt(carrier: Raster<RGB>, txt: string, filler: seq<Filler>) returns (res: Outcome<Raster<RGB>>)
    requires carrier.Valid() && |filler| == |carrier.pixels|
    ensures res == if |Payload(txt)| < 6 * (carrier.w * carrier.h)
                   then Outcome(Ok(WovenText(carrier, Payload(txt), filler)), true)
                   else Outcome(Err(CapacityExceeded), false)
  {
    var bmsg := EncodeMessage(txt);
    var w, h := carrier.w, carrier.h;
    CapacityReal(|bmsg|, w * h);
    if (|bmsg| as real) / 6.0 < (w * h) as real {
      var woven := PlantPixels(carrier, bmsg, filler);
      var removed := true;  // the carrier file is deleted before the result is saved
      res := Outcome(Ok(woven), removed);
    } else {
      res := Outcome(Err(CapacityExceeded), false);
    }
  }

  /** The pixel loop of `extract_txt`: the low 2/2/2 digits of every carrier pixel. */
  method TextBitstream(carrier: Raster<RGB>) returns (bitData: seq<Bit>)
    requires carrier.Valid()
    ensures bitData == Flatten(carrier.pixels, Low222)
  {
    var w, h := carrier.w, carrier.h;
    assert |carrier.pixels| == RowStart(w, h) by { RowStartProduct(w, h); }
    bitData := [];
    var rw, start := 0, 0;
    while rw < h
      invariant 0 <= rw <= h
      invariant start == RowStart(w, rw) && start <= |carrier.pixels|
      invariant bitData == Flatten(carrier.pixels[..start], Low222)
    {
      RowStartMono(w, rw + 1, h);
      var cl := 0;
      while cl < w
        invariant 0 <= cl <= w
        invariant start + cl <= |carrier.pixels|
        invariant bitData == Flatten(carrier.pixels[..start + cl], Low222)
      {
        var n := start + cl;
        var px := carrier.pixels[n];
        var cv := [Bits8(px.r), Bits8(px.g), Bits8(px.b)];
        bitData := bitData + (cv[0][6..] + cv[1][6..] + cv[2][6..]);
        assert bitData == Flatten(carrier.pixels[..n + 1], Low222) by {
          FlattenSnoc(carrier.pixels, Low222, n);
        }
        cl := cl + 1;
      }
      rw, start := rw + 1, start + w;
    }
    assert carrier.pixels[..start] == carrier.pixels;
  }

  /** The character loop of `extract_txt`: one `chr` per whole group of eight digits. */
  method DecodeChars(bitData: seq<Bit>) returns (fullData: string)
    ensures fullData == Chars(bitData)
  {
    fullData := [];
    var i := 0;
    while i < |bitData| / 8
      invariant 0 <= i <= |bitData| / 8
      invariant fullData == Chars(bitData)[..i]
    {
      var n := i * 8;
      var a := Octet(bitData[n .. n + 8]) as char;
      fullData := fullData + [a];
      assert fullData == Chars(bitData)[..i + 1];
      i := i + 1;
    }
  }

  /** `extract_txt`: the decoded characters up to the first sentinel. */
  method ExtractTxt(carrier: Raster<RGB>) returns (txt: string)
    requires carrier.Valid()
    ensures txt == ExtractText(carrier)
  {
    var bitData := TextBitstream(carrier);
    var fullData := DecodeChars(bitData);
    txt := BeforeFirst(fullData, Sentinel);
  }
}
