# weaver: a verified model of an LSB steganography codec

`weaver.py` hides data in the least-significant bits of the red, green and blue channels
of a carrier image, and reads it back. It has two pairs of operations:

- `weave` / `extract` hide a single-channel 8-bit raster of the carrier's size. Each carrier
  pixel takes eight bits of it, split 3/3/2 into the low bits of R/G/B.
- `weave_txt` / `extract_txt` hide a text. The text is framed by the closing symbol `{#ß#}`
  and then by `"0"` padding. It is written as 8-digit character codes, planted six digits per
  pixel (2/2/2). Pixels the message does not reach get random filler. Extraction reads the
  digits back, decodes them eight at a time with `chr`, and cuts the result at the first
  closing symbol.

The model is in four modules:

- `Bits` (`bits.dfy`): binary digit strings as the source builds them with `"{0:08b}"` and
  `int(_, 2)`, and the concatenation `Flatten` that its `+=` loops produce.
- `Rasters` (`rasters.dfy`): RGB pixels, a row-major `Raster` of width `w` and height `h`,
  the two reported errors, and the `Outcome` of a weave call. The `removed` flag of
  `Outcome` records whether the call deleted the carrier file.
- `ImageCodec` (`image_codec.dfy`): `weave` and `extract`.
- `TextCodec` (`text_codec.dfy`): `weave_txt` and `extract_txt`.

Every loop nest of the source is a method with nested `rw`/`cl` `while` loops. The loops
build a digit string or fill a fresh `array` of pixels. Each method is proved against a
function on values: `WeaveImage`, `ExtractImage`, `Payload`, `WovenText`, `Chars`,
`ExtractText`. The properties are proved as lemmas about those functions. The main ones
are the two round trips, the per-pixel bit layout, framing and capacity, and the cut at
the first closing symbol.

Two behaviours of the source are modelled exactly as the code has them:

- Capacity: the test at weaver.py:159 is strict. A message of exactly `6 * W * H` digits is
  rejected although it would fit. `WeaveTxt` branches on it as written.
- Wide characters: the `except` at weaver.py:150 would substitute the code of `"?"`, but
  `"{0:08b}".format(ord(c))` of one character never raises. A character at or above code
  point 256 gives more than eight digits instead. `CharBits`/`Format08b` model this, and
  `WideCharLost` shows such a text never comes back.

## Model

| member | source | states |
|---|---|---|
| Bits.FromFormat08b | weaver.py:149 | `int(_, 2)` of `"{0:08b}".format(v)` gives `v` for every natural `v`, including values that widen past eight digits |
| Bits.FromBitsToBits | weaver.py:131 | reading back the `width` digits written for `v` gives `v` |
| Bits.ToBitsFromBits | weaver.py:131 | writing back at its own width the value read from a digit string gives the same string |
| Bits.Fields | weaver.py:126-128 | when `v = q * 2^lo + r` with `r < 2^lo`, the first `hi` digits of `v` are those of `q` and the rest those of `r` |
| Bits.FlattenLength | weaver.py:111 | pieces of `width` digits each concatenate to `width * count` digits |
| Bits.FlattenChunk | weaver.py:125 | piece `n` sits at offset `width * n`, the source's `j = n * 8` |
| Bits.FlattenSlices | weaver.py:178 | pieces that match the consecutive `width`-digit slices of a stream concatenate to that stream's prefix |
| Bits.FlattenAppend | weaver.py:151 | flattening `xs + ys` is flattening `xs` followed by flattening `ys` |
| ImageCodec.EmbeddedBitstream | weaver.py:108-111 | `g_bytes` is the eight digits of every embedded pixel, row by row |
| ImageCodec.WeavePixels | weaver.py:113-132 | the output has the carrier's size, and pixel `n` is carrier pixel `n` with digits `8n .. 8n + 8` of `g_bytes` reinserted 3/3/2 |
| ImageCodec.ReinsertSplice | weaver.py:123-131 | the digit-string splice of one pixel equals arithmetic replacement of the low 3/3/2 bits by the embedded value's bits 7..5, 4..2 and 1..0 |
| ImageCodec.SpliceBits | weaver.py:126-128 | each woven channel is the carrier channel's first 5/5/6 digits followed by the next 3/3/2 digits of the embedded value |
| ImageCodec.WeaveImageLayout | weaver.py:118-132 | pixel `n` keeps the carrier's high 5/5/6 bits, and its low 3/3/2 bits are digits `8n .. 8n + 8` of the embedded stream, which spell embedded pixel `n` |
| ImageCodec.RewovenWeaveImage | weaver.py:118-132 | reinserting the whole embedded stream into every carrier pixel is `WeaveImage` |
| ImageCodec.Weave | weaver.py:100-137 | on a size mismatch: `SizeMismatch`, no output, no deletion; otherwise `WeaveImage`, with the carrier deleted |
| ImageCodec.CarrierBitstream | weaver.py:32-37 | `bit_data` is the last 3/3/2 digits of R/G/B of every carrier pixel, row by row |
| ImageCodec.DecodePixels | weaver.py:38-45 | the output is `w` x `h`, and pixel `n` is `int(bit_data[8n : 8n + 8], 2)` |
| ImageCodec.HiddenFromBits | weaver.py:35-36 | a pixel's eight low digits read as `(R & 7) * 32 + (G & 7) * 4 + (B & 3)` |
| ImageCodec.OctetsExtractImage | weaver.py:31-45 | each carrier pixel contributes exactly eight digits at offset `8n`, so decoding the stream gives `Hidden` of every pixel |
| ImageCodec.Extract | weaver.py:31-45 | `extract` gives a raster of the carrier's size whose pixel `n` is `(R & 7) * 32 + (G & 7) * 4 + (B & 3)` of carrier pixel `n` |
| ImageCodec.HiddenSplice | weaver.py:126-128 | the value spliced into any carrier pixel is the value read back from it |
| ImageCodec.ImageRoundTrip | weaver.py:108-132 | for equal sizes, `extract(weave(carrier, e))` is `e` pixel for pixel (extraction as at weaver.py:32-45) |
| TextCodec.EncodeMessage | weaver.py:145-151 | `bmsg` is the character codes of the text, the closing symbol and `len % 6` padding characters |
| TextCodec.PayloadFraming | weaver.py:145-151 | for code points below 256, `bmsg` has `8 * (L + L % 6)` digits with `L = len(text) + 5`, and digits `8k .. 8k + 8` are the code of framed character `k` |
| TextCodec.WideCharBits | weaver.py:149-150 | a character at or above code point 256 takes more than eight digits, which still read back as its code point: the `except` is never reached |
| TextCodec.PaddingCoversTail | weaver.py:176 | the 2 or 4 digits that `// 6` leaves unplanted all lie after the text and the closing symbol |
| TextCodec.CapacityReal | weaver.py:159 | the real-division test `len(bmsg) / 6 < w * h` is `len(bmsg) < 6 * w * h` |
| TextCodec.CapacityScenario | weaver.py:159 | `"Hi"` frames to 64 digits, more than a 2 x 1 carrier holds |
| TextCodec.FillerBits | weaver.py:172 | the six filler digits `rn[0] .. rn[5]` read back as the supplied filler value |
| TextCodec.PlantMessage | weaver.py:176-184 | while `n < len(bmsg) // 6`, digits `6n .. 6n + 6` exist, and pixel `n` takes them 2/2/2 after the carrier's first six digits |
| TextCodec.PlantFiller | weaver.py:172-175 | past the message, pixel `n` takes the filler digits 2/2/2 after the carrier's first six digits |
| TextCodec.PlantBits | weaver.py:173-184 | each planted channel is the carrier channel's first six digits followed by two planted digits |
| TextCodec.Low222Plant | weaver.py:176-184 | the low 2/2/2 digits of a planted pixel are the six digits planted |
| TextCodec.WovenTextLayout | weaver.py:165-185 | every pixel keeps the carrier's high six bits per channel; pixel `n < len(bmsg) // 6` carries `bmsg[6n .. 6n + 6]`, every other pixel its filler |
| TextCodec.PlantPixels | weaver.py:160-185 | the output has the carrier's size, and pixel `n` is `WovenText` pixel `n` |
| TextCodec.WeaveTxt | weaver.py:145-193 | if `len(bmsg) < 6 * w * h`, the planted carrier and a deletion; otherwise `CapacityExceeded`, no output, no deletion |
| TextCodec.WovenPrefix | weaver.py:176-182 | the first `k` planted pixels read back spell `bmsg[.. 6k]` |
| TextCodec.WovenStream | weaver.py:165-185 | the read-back stream is the planted `6 * (len(bmsg) // 6)` message digits, then the filler of the other pixels |
| TextCodec.PayloadHead | weaver.py:145-151 | the planted part of `bmsg` starts with the codes of the text and the closing symbol |
| TextCodec.TextBitstream | weaver.py:68-73 | `bit_data` is the last two digits of R, G and B of every carrier pixel, row by row |
| TextCodec.DecodeChars | weaver.py:75-79 | `full_data` is `chr(int(bit_data[8i : 8i + 8], 2))` for `i < len(bit_data) // 8` |
| TextCodec.CharsPrefix | weaver.py:75-79 | decoding a stream that starts with `a` starts with the decoding of `a` |
| TextCodec.CharsFlatten | weaver.py:75-79 | decoding the 8-digit codes of a text of code points below 256 gives the text |
| TextCodec.BeforeFirstSpec | weaver.py:80 | `split(sep)[0]` is a prefix of the buffer where no occurrence of `sep` starts, and when it is shorter, an occurrence starts right after it |
| TextCodec.BeforeFirstWhole | weaver.py:80 | `split(sep)[0]` is the whole buffer exactly when `sep` does not occur in it |
| TextCodec.SentinelUnbordered | weaver.py:145 | the closing symbol's first character occurs nowhere else in it, so the symbol has no proper border |
| TextCodec.FirstSentinel | weaver.py:80 | in a text without the closing symbol, followed by it, the first occurrence is the appended one |
| TextCodec.ExtractedText | weaver.py:68-80 | `extract_txt` decodes exactly `(6 * W * H) // 8` characters, all below 256 (so the `"[?]"` fallback is never taken), and returns a prefix of them |
| TextCodec.ExtractTxt | weaver.py:62-80 | `extract_txt` returns `ExtractText` of the carrier |
| TextCodec.WideCharLost | weaver.py:149 | a text with a character at or above code point 256 comes back from no carrier |
| TextCodec.StreamHead | weaver.py:165-185 | the digits read back from a text-woven carrier start with the codes of the text and the closing symbol |
| TextCodec.DecodedHead | weaver.py:75-79 | the characters decoded from it start with the text and the closing symbol |
| TextCodec.TextRoundTrip | weaver.py:143-185 | for code points below 256, a text without the closing symbol and `len(bmsg) < 6 * W * H`, `extract_txt` returns the text woven in, whatever the filler |

## Left out

- File I/O is not modelled: `Image.open`, `load`, `new`, `save`, `close` and the `try/except`
  around them. The carrier arrives as a raster, and the `not found` error paths go with it.
- `os.remove` is not performed; it is the `removed` flag of `Outcome`.
- Output file names and the `.png`/`.gif` suffixing are path handling, not codec logic.
- `time.process_time` and every `print` are diagnostics only.
- The `bits_encoded` counters (weaver.py:115, 129, 162, 182) feed only a `print`.
- `rd.randint` is not modelled. The filler is a parameter with one 6-digit value per pixel,
  and no statement about its distribution can be made here.
- Only three-channel RGB carriers are modelled. Alpha or palette carriers depend on the
  imaging library's internals.
- The `help()` function and the `f` table (weaver.py:9-14, 199-203) only print text.
- The `except` at weaver.py:78 is unreachable, because `chr` of a byte always succeeds.
  `ExtractedText` states why.
- The `except` at weaver.py:150 is unreachable, because formatting a code point never
  fails. `WideCharBits` states why.
- The embedded raster of `weave` arrives as values 0..255 (`Byte`). A palette image holds
  no other values.
- WeaveTxt: the capacity test at weaver.py:159 divides in floating point (`/` gives a float).
  The model divides exact reals. The two agree for every carrier below 2^51 pixels, where
  rounding cannot carry `len(bmsg) / 6` up to the next integer.
- WeaveTxt: the text arrives already as a string. The `str(txt)` conversion of an arbitrary
  value (weaver.py:145) is not modelled. Lone surrogate code points (U+D800..U+DFFF), which a
  Python `str` can hold, are not representable as a `char`. They would be wide characters,
  the kind `WideCharBits` and `WideCharLost` cover.
- The pixel loops keep a running row offset `start` (`RowStart`) instead of computing
  `n = cl + rw * w` afresh (weaver.py:42, :120, :167). It visits the same pixels, and
  `RowStartProduct` shows the offset equals `rw * w`.
