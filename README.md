# StegTool LSB codec in Dafny

StegTool hides a text message in the pixels of an image by least-significant-bit (LSB)
substitution. This project models the codec at its core and proves what it does:

- **Framing** (`encode`): each character becomes `format(ord(c), '08b')`, the 8-bit numeral
  written most significant bit first. The start token `<!>` goes in front and the stop token
  `<?>` goes behind. Then `3 - len % 3` zero bits are appended.
- **Capacity check and embedding** (`encode`): the message is refused when its bits exceed the
  image's `h * w * 3` channel slots less 6. Otherwise the stream is written, three bits per pixel in row-major order, into the LSBs of
  red, green and blue, and cut off at the last pixel if it is longer. OpenCV stores a pixel as
  `(b, g, r)`.
- **Start-token check** (`valid_encoding`): the LSBs of pixels 0 to 7 of row 0 are read as
  three characters and compared with `<!>`.
- **Extraction** (`extract`, called by `decode`): LSBs are gathered in the same order. Each bit
  is appended only while the gathered bits do not yet end with the stop token. The first and
  last 24 bits are then stripped, and every 8-bit chunk becomes a character.

Modules:

- `Bits` models bit strings (`seq<bool>`, most significant bit first), `format(n, '08b')`,
  `int(s, 2)` and the LSB read and write on an 8-bit channel.
- `Channels` models pixels, their three channel slots in scan order, and the pure effect of
  embedding a stream into a row-major pixel sequence.
- `Framing` models the framed bitstream, the tokens, the chunk decoding and the capacity check.
- `Decoding` models `valid_encoding`, `extract` and `decode` as functions. It also holds the
  round trip, the concrete scenarios and the capacity finding.
- `StegTool` holds the imperative operations on an `array2<Pixel>` image (h rows of w pixels):
  `Encode` with its nested embedding loops, `ValidEncoding`, `Extract` and `Decode`. Each is
  proved against the functions above.
- `Errors` holds the outcomes: `MessageTooLarge` is the `ValueError`. `IndexOutOfRange` is the
  index error `valid_encoding` raises on an image under 1 x 8 pixels. `NotEncoded` is the
  `sys.exit()` branch of `decode`. `StopTokenNotFound` ends a pass that never meets the stop token.

Details of the code that the model keeps:

- Padding is `3 - len % 3` zero bits: 1, 2 or 3, although the comment at StegTool.py:39 speaks
  of "1 or 2 zeros". A stream whose length is already a multiple of 3 gets three zeros, so the
  empty message frames to 51 bits.
- `extract` tests for the stop token before every appended bit, so gathering stops in the middle
  of a pixel when the token completes there.
- A trailing chunk shorter than 8 bits is converted like the others (`int(chunk, 2)`).
- The capacity check compares the message bits alone with `h * w * 3 - 6` (see Findings).

The round trip needs the stream's own bits not to complete the stop token early. The source
does not escape message content, so a message such as `"?>"` after some prefixes can end
extraction early. `Decoding.NoEarlyStop` states this condition. It is proved for the empty
message and for `"hi"`.

## Model

| member | source | states |
|---|---|---|
| `Bits.Format08b` | StegTool.py:21 | `format(n, '08b')` denotes n; it has exactly 8 digits iff n < 256, and more digits start with a 1 |
| `Bits.LsbIsLastDigit` | StegTool.py:134-139 | the last digit of `format(v, '08b')` is the channel's least significant bit |
| `Bits.SetLsb` | StegTool.py:61-74 | the new channel keeps the old one's upper 7 bits and its LSB is the stream bit; `Bits.SetLsbReplacesLastDigit` ties it to the digit replacement |
| `Bits.SetLsbReplacesLastDigit` | StegTool.py:53-74 | replacing the last digit and reading the numeral back gives `v - v % 2 + bit`: upper 7 bits kept, LSB set to the stream bit |
| `Channels.PixelBitsAreLastDigits` | StegTool.py:134-139 | a pixel's slots in scan order are the last digits of `format(r, '08b')`, `format(g, '08b')`, `format(b, '08b')` |
| `Channels.WithLsbs` | StegTool.py:50-77 | writing three bits into r, g, b and storing `(b, g, r)` back makes the pixel's slots equal those bits, and no channel changes above its LSB |
| `Channels.EmbedPixel` | StegTool.py:45-80 | pixel k carries stream bits 3k, 3k+1, 3k+2 while 3k is inside the stream and is unchanged after it |
| `Channels.ChannelBitsAt` | StegTool.py:168-184 | in the row-major scan, pixel k's slots are bits 3k to 3k+2 |
| `Channels.ChannelBitsPrefix` | StegTool.py:129-139 | scanning the first n pixels reads the first 3n bits of the whole scan |
| `Channels.Embedded` | StegTool.py:45-80 | the embedded pixel sequence has the same length; pixel k carries stream bits 3k..3k+2 while 3k is inside the stream and is unchanged after it; no pixel changes above its LSBs |
| `Channels.EmbeddedBits` | StegTool.py:45-80 | after embedding, every slot inside the stream reads the stream bit and every other slot its old bit; pixels at or past len/3 are unchanged; no pixel changes above its LSBs |
| `Framing.MessageBits` | StegTool.py:21 | the message bits are at least 8 per character, exactly 8 per character when all code points are below 256 |
| `Framing.MessageBitsAt` | StegTool.py:21 | character i's 8 bits sit at offset 8i of the message bits |
| `Framing.TokenBits` | StegTool.py:32-34 | the start and stop token bit strings are the message bits of `<!>` and `<?>` |
| `Framing.TokensDiffer` | StegTool.py:32-34 | the two tokens have different bit patterns |
| `Framing.CharsOf` | StegTool.py:192-198 | chunk decoding yields one character per started 8-bit chunk, each the value of its chunk and below 256 |
| `Framing.CharsOfMessageBits` | StegTool.py:192-198 | decoding the bits of a message of 8-bit characters gives the message back |
| `Framing.CharsOfInjective` | StegTool.py:142-148 | two whole-byte bit strings that decode to the same characters are equal |
| `Framing.StartTokenSpelled` | StegTool.py:141-154 | 24 bits spell `<!>` exactly when they are the start token's bits |
| `Framing.PadToThree` | StegTool.py:39-40 | padding appends 1 to 3 zero bits and reaches a multiple of 3 |
| `Framing.Frame` | StegTool.py:36-40 | the framed stream is the delimited stream followed by 1 to 3 zero bits, and its length is a multiple of 3 |
| `Framing.FrameLayout` | StegTool.py:19-40 | framed stream = 24 start bits, the 8 bits of each character, 24 stop bits, then p zeros with 1 <= p <= 3 and 48 + 8n + p divisible by 3 |
| `Framing.ExceedsCapacityAsWritten` | StegTool.py:26-29 | the check as written: refuse when the message bits exceed `h*w*3 - 6`; `StegTool.Encode` fails exactly when it holds, and `Decoding.AsWrittenCheckLosesStopToken` shows it lets through a message whose stop token is lost |
| `Framing.CapacityMeansFit` | StegTool.py:24-29 | the corrected check accepts exactly the messages whose delimited stream fits in h*w*3 slots |
| `Decoding.ScanUntilPrefix` | StegTool.py:178-189 | the gathered bits are a prefix of the scan that ends with the token, or the whole scan |
| `Decoding.ScanUntilShortest` | StegTool.py:178-189 | no shorter prefix of the scan ends with the token |
| `Decoding.StopScan` | StegTool.py:178-189 | the bits gathered from a scan are no more than the scan; `Decoding.StopScanShortest` characterises them fully |
| `Decoding.StopScanShortest` | StegTool.py:178-189 | `extract` gathers the shortest prefix of the scan ending with the stop token, or the whole scan |
| `Decoding.StopScanAppend` | StegTool.py:167-189 | scanning further bits continues the gathering where it stood |
| `Decoding.GatherBitsStopped` | StegTool.py:179-189 | once the gathered bits end with the stop token, no further bit is appended |
| `Decoding.StopScanStable` | StegTool.py:185-189 | after the stop token is gathered, scanning more of the image changes nothing |
| `Decoding.Unframe` | StegTool.py:192-198 | stripping 24 bits at each end leaves one character per started 8-bit chunk of what remains, and nothing when under 48 bits were gathered |
| `Decoding.ExtractBits` | StegTool.py:164-198 | one pass fails only with `StopTokenNotFound`, and only when the whole scan does not end with the stop token; `Decoding.ExtractBitsFindsFirstStop` gives the success case |
| `Decoding.ExtractBitsFindsFirstStop` | StegTool.py:164-198 | a pass fails, with `StopTokenNotFound`, exactly when no prefix of the scan ends with the stop token; otherwise it decodes the first such prefix |
| `Decoding.StartCheck` | StegTool.py:120-154 | index error iff there is no row or fewer than 8 columns; otherwise true iff the 24 slots of pixels 0..7 hold the start token's bits |
| `Decoding.DecodeImage` | StegTool.py:101-116 | an index error exactly when there is no row or fewer than 8 columns; not encoded exactly when pixels 0..7 do not carry the start token; otherwise the result of one extraction pass over the scan |
| `Decoding.ExtractDelimited` | StegTool.py:158-201 | a scan that starts with a delimited message whose stop token completes only at its end extracts that message |
| `Decoding.StartRecognised` | StegTool.py:109-154 | an image whose scan starts with a delimited stream passes the start-token check |
| `Decoding.RoundTrip` | StegTool.py:13-201 | decode(encode(m)) == m for 8-bit characters, width >= 8, the corrected capacity check passing and no early stop pattern |
| `Decoding.StartWindows` | StegTool.py:164-189 | in a stream starting with `<!>`, the stop token cannot complete at bits 24 to 46 |
| `Decoding.FrameLengths` | StegTool.py:37-40 | the empty message frames to 51 bits and "hi" to 66 |
| `Decoding.EmptyNoEarlyStop` | StegTool.py:179-189 | the empty message's stream completes the stop token only at its end |
| `Decoding.EmptyMessageRoundTrip` | StegTool.py:13-201 | the empty message decodes back from any image of width >= 8 with at least 48 slots |
| `Decoding.HiNoEarlyStop` | StegTool.py:179-189 | the stream of "hi" completes the stop token only at its end |
| `Decoding.HiRoundTrip` | StegTool.py:13-201 | "hi" decodes back, and every pixel from index 22 on (stream bit 66 on) is untouched |
| `Decoding.AsWrittenCheckLosesStopToken` | StegTool.py:26-29 | the check as written accepts the empty message on a 1x8 image, and decoding that image never meets the stop token |
| `Decoding.CorrectedCheckKeepsStopToken` | StegTool.py:26-29 | the corrected check refuses that message; it is stricter than the check as written, and every message it accepts keeps both tokens inside the image |
| `StegTool.PixelsRowMajor` | StegTool.py:46-47 | the scan order lists pixel (y, x) at index y*w + x |
| `StegTool.Encode` | StegTool.py:13-83 | fails with `MessageTooLarge` exactly when the message bits exceed `h*w*3 - 6`, with the image untouched; otherwise the image equals the framed stream embedded into the old pixels |
| `StegTool.EmbedStream` | StegTool.py:42-80 | the loops leave the row-major pixels equal to `Embedded(old pixels, stream)` |
| `StegTool.EmbedRows` | StegTool.py:45-80 | every pixel (y, x) becomes `EmbedPixel(old, stream, y*w + x)` |
| `StegTool.EmbedRow` | StegTool.py:47-80 | one row embeds its pixels, advances `msg_idx` to min(3*(row end), len) and touches no other row |
| `StegTool.EmbedLsbs` | StegTool.py:50-77 | pixel (y, x) takes stream bits idx..idx+2 in r, g, b; no other pixel changes |
| `StegTool.ValidEncoding` | StegTool.py:120-154 | the loop over 8 pixels computes `StartCheck` |
| `StegTool.Extract` | StegTool.py:158-201 | one pass over the image computes `ExtractBits` of its row-major scan |
| `StegTool.ExtractPass` | StegTool.py:164-198 | the nested loops gather exactly the stop scan of the image's bits |
| `StegTool.ExtractRow` | StegTool.py:169-189 | one row gathers its pixels' bits under the stop guard and reports whether the stop token has been gathered |
| `StegTool.GatherLsbs` | StegTool.py:171-186 | one pixel offers its r, g, b LSBs, each appended only while the stop token is absent |
| `StegTool.GatherBitsThree` | StegTool.py:179-184 | the three guarded appends of one pixel are three gathering steps |
| `StegTool.GatheredStable` | StegTool.py:185-189 | once the stop token is gathered, later pixels and rows add nothing |
| `StegTool.GatheredIsStopScan` | StegTool.py:167-189 | gathering pixel by pixel equals the stop scan over those pixels' bits |
| `StegTool.Decode` | StegTool.py:101-116 | `decode` computes `DecodeImage`: extract only after the start token is found |
| `StegTool.EncodeThenDecode` | StegTool.py:13-116 | encoding in place is accepted exactly as the check as written accepts it; whenever the corrected check accepts the message too, decoding returns it |

## Left out

- `main`, argument parsing, the file-existence and extension checks (StegTool.py:215-276): command-line glue.
- `open_file` and `save_image` (StegTool.py:87-97, 205-211): image file I/O through OpenCV. The image is an `array2<Pixel>` held in memory.
- The verbose `print` calls. The `sys.exit()` in `decode` becomes the result `Failure(NotEncoded)`.
- The outer `while not stop:` of `extract` (StegTool.py:167): when the image holds no stop token, the source rescans the image forever and keeps appending bits across passes. The model does one pass and returns `Failure(StopTokenNotFound)`. A stop token that only completes across the boundary between two passes is therefore not modelled.
- The `to_bytes(2)` / `from_bytes` steps (StegTool.py:145-148, 196-198): they are the identity on 0..255, so a chunk becomes `chr(int(chunk, 2))` directly.
- Images with other than three channels: `(b, g, r) = image[y][x]` needs exactly three, so the channel count is fixed at 3 and `image.shape[2]` is 3 in the capacity check.
- Characters with code points of 256 or more are framed as Python does it (more than 8 bits), but the round trip is proved only for 8-bit characters. Such a message does not survive decoding.
- testing/testing.py and testing/open_cv testing.py: experiment scripts with file I/O only.

## Findings

| source | as written | input that shows it | evidently intended | confidence | as-written member | corrected member |
|---|---|---|---|---|---|---|
| StegTool.py:28 | refuses only when `len(message bits) > h*w*3 - 6`, counting 6 bits for the two 3-character tokens | the empty message on a 1 x 8 image: 0 > 18 is false, so it is accepted. The 24 slots hold only the start token and the stop token is never written, so decoding never meets it (the source loops forever) | subtract the 48 token bits: refuse when `len(message bits) > h*w*3 - 48` | not executed | `Decoding.AsWrittenCheckLosesStopToken` | `Decoding.RoundTrip` |

`StegTool.Encode` keeps the check as written. The corrected check is `Framing.ExceedsCapacity`: `Decoding.RoundTrip` and `StegTool.EncodeThenDecode` prove the round trip under it, and `Decoding.CorrectedCheckKeepsStopToken` shows it is stricter than the check as written and refuses the counterexample.
