/** The operations of the tool on an image held in memory: `encode` embeds a message in place,
    `valid_encoding` looks for the start token, `extract` scans for the stop token and `decode`
    chains the two. The image is an h x w array of pixels, rows first as OpenCV holds it. */
module StegTool {
  import opened Bits
  import opened Framing
  import opened Channels
  import opened Decoding
  import opened Errors

  function Min(a: int, b: int): int {
    if a <= b then a else b
  }

  /** Index k of a row-major scan of h rows of w pixels lies in row k / w, column k % w. */
  lemma RowMajorSplit(k: int, h: nat, w: nat)
    requires 0 <= k < h * w
    ensures 0 < w && 0 <= k / w < h && 0 <= k % w < w && k == (k / w) * w + k % w
  {
    if k / w >= h {
      MulMonotone(h, k / w, w);
    }
  }

  lemma NextRow(y: nat, w: nat)
    ensures (y + 1) * w == y * w + w
  {
  }

  /** The pixels of an image in the order both scans visit them: row by row, left to right. */
  ghost function Pixels(img: array2<Pixel>): (ps: seq<Pixel>)
    reads img
    ensures |ps| == img.Length0 * img.Length1
  {
    Rows(img, img.Length0)
  }

  /** The first n rows of an image, one after the other. */
  ghost function Rows(img: array2<Pixel>, n: nat): (ps: seq<Pixel>)
    requires n <= img.Length0
    reads img
    ensures |ps| == n * img.Length1
  {
    if n == 0 then []
    else
      NextRow(n - 1, img.Length1);
      Rows(img, n - 1) + seq(img.Length1, x requires 0 <= x < img.Length1 reads img => img[n - 1, x])
  }

  /** `ps` lists the pixels of `img` row by row: pixel (y, x) is element y * w + x. */
  ghost predicate RowMajor(img: array2<Pixel>, ps: seq<Pixel>)
    reads img
  {
    |ps| == img.Length0 * img.Length1 &&
    forall y, x :: 0 <= y < img.Length0 && 0 <= x < img.Length1 ==>
      y * img.Length1 + x < |ps| && ps[y * img.Length1 + x] == img[y, x]
  }

  /** Pixel (y, x) is element y * w + x of the first n rows, for y below n. */
  lemma {:induction false} RowsAt(img: array2<Pixel>, n: nat, y: nat, x: nat)
    requires y < n <= img.Length0 && x < img.Length1
    ensures y * img.Length1 + x < |Rows(img, n)|
    ensures Rows(img, n)[y * img.Length1 + x] == img[y, x]
  {
    var w := img.Length1;
    NextRow(n - 1, w);
    if y < n - 1 {
      RowsAt(img, n - 1, y, x);
      MulMonotone(y + 1, n - 1, w);
      NextRow(y, w);
    }
  }

  lemma PixelsRowMajor(img: array2<Pixel>)
    ensures RowMajor(img, Pixels(img))
  {
    forall y, x | 0 <= y < img.Length0 && 0 <= x < img.Length1
      ensures y * img.Length1 + x < |Pixels(img)| && Pixels(img)[y * img.Length1 + x] == img[y, x]
    {
      RowsAt(img, img.Length0, y, x);
    }
  }

  /** An image whose pixel (y, x) is pixel y * w + x of `before` with a stream embedded lists,
      row by row, the pixels `Embedded(before, s)`. */
  lemma EmbeddedImage(img: array2<Pixel>, before: seq<Pixel>, s: seq<bool>)
    requires |s| % 3 == 0 && |before| == img.Length0 * img.Length1
    requires forall y, x :: 0 <= y < img.Length0 && 0 <= x < img.Length1 ==>
      y * img.Length1 + x < |before| &&
      img[y, x] == EmbedPixel(before[y * img.Length1 + x], s, y * img.Length1 + x)
    ensures Pixels(img) == Embedded(before, s)
  {
    var h, w := img.Length0, img.Length1;
    PixelsRowMajor(img);
    forall k | 0 <= k < h * w
      ensures Pixels(img)[k] == Embedded(before, s)[k]
    {
      RowMajorSplit(k, h, w);
      var y, x := k / w, k % w;
      assert img[y, x] == EmbedPixel(before[k], s, k);
    }
  }

  /** `encode`: refuse a message whose bits exceed the capacity less 6 (the check as written),
      otherwise frame it and write the stream into the red, green, blue LSBs of the pixels in
      row-major order, three bits per pixel, leaving every pixel past the end of the stream as it
      was. A stream longer than the image is cut off at the last pixel. */
  method Encode(img: array2<Pixel>, m: string) returns (outcome: Outcome)
    modifies img
    ensures outcome.Fail? <==> ExceedsCapacityAsWritten(|MessageBits(m)|, img.Length0, img.Length1)
    ensures outcome.Fail? ==> outcome.error == MessageTooLarge && unchanged(img)
    ensures outcome.Pass? ==>
      forall y, x :: 0 <= y < img.Length0 && 0 <= x < img.Length1 ==>
        img[y, x] == EmbedPixel(old(img[y, x]), Frame(m), y * img.Length1 + x)
    ensures outcome.Pass? ==> Pixels(img) == Embedded(old(Pixels(img)), Frame(m))
  {
    var secret := MessageBits(m);
    if ExceedsCapacityAsWritten(|secret|, img.Length0, img.Length1) {
      return Fail(MessageTooLarge);
    }
    var stream := Frame(m);
    EmbedStream(img, stream);
    return Pass;
  }

  /** The embedding loops of `encode`: `msg_idx` walks the stream three bits per pixel, row by
      row; once the stream is used up every further pixel is left alone. */
  method EmbedStream(img: array2<Pixel>, stream: seq<bool>)
    requires |stream| % 3 == 0
    modifies img
    ensures forall y, x :: 0 <= y < img.Length0 && 0 <= x < img.Length1 ==>
      img[y, x] == EmbedPixel(old(img[y, x]), stream, y * img.Length1 + x)
    ensures Pixels(img) == Embedded(old(Pixels(img)), stream)
  {
    ghost var before := Pixels(img);
    PixelsRowMajor(img);
    EmbedRows(img, stream);
    EmbeddedImage(img, before, stream);
  }

  /** The loops themselves. */
  method EmbedRows(img: array2<Pixel>, stream: seq<bool>)
    requires |stream| % 3 == 0
    modifies img
    ensures forall y, x :: 0 <= y < img.Length0 && 0 <= x < img.Length1 ==>
      img[y, x] == EmbedPixel(old(img[y, x]), stream, y * img.Length1 + x)
  {
    var idx := 0;
    for y := 0 to img.Length0
      invariant idx == Min(3 * (y * img.Length1), |stream|)
      invariant forall y', x' :: 0 <= y' < y && 0 <= x' < img.Length1 ==>
        img[y', x'] == EmbedPixel(old(img[y', x']), stream, y' * img.Length1 + x')
      invariant forall y', x' :: y <= y' < img.Length0 && 0 <= x' < img.Length1 ==>
        img[y', x'] == old(img[y', x'])
    {
      NextRow(y, img.Length1);
      idx := EmbedRow(img, y, stream, y * img.Length1, idx);
    }
  }

  /** One row of `encode`'s loops: pixels take three stream bits each while `msg_idx` is inside
      the stream, and the row is left at the first pixel where it is not. */
  method EmbedRow(img: array2<Pixel>, y: nat, stream: seq<bool>, ghost start: nat, idx0: nat)
    returns (idx: nat)
    requires y < img.Length0 && start == y * img.Length1
    requires |stream| % 3 == 0 && idx0 == Min(3 * start, |stream|)
    modifies img
    ensures idx == Min(3 * (start + img.Length1), |stream|)
    ensures forall x :: 0 <= x < img.Length1 ==>
      img[y, x] == EmbedPixel(old(img[y, x]), stream, start + x)
    ensures forall y', x :: 0 <= y' < img.Length0 && 0 <= x < img.Length1 && y' != y ==>
      img[y', x] == old(img[y', x])
  {
    idx := idx0;
    var x := 0;
    while x < img.Length1 && idx < |stream|
      invariant 0 <= x <= img.Length1 && idx == Min(3 * (start + x), |stream|)
      invariant forall x' :: 0 <= x' < x ==>
        img[y, x'] == EmbedPixel(old(img[y, x']), stream, start + x')
      invariant forall y', x' :: 0 <= y' < img.Length0 && 0 <= x' < img.Length1 && (y' != y || x' >= x) ==>
        img[y', x'] == old(img[y', x'])
    {
      EmbedLsbs(img, y, x, stream, idx);
      idx := idx + 3;
      x := x + 1;
    }
  }

  /** The body of `encode`'s inner loop for pixel (y, x): replace the red, green and blue LSBs
      by stream bits idx, idx + 1 and idx + 2 and store the pixel back. */
  method EmbedLsbs(img: array2<Pixel>, y: nat, x: nat, stream: seq<bool>, idx: nat)
    requires y < img.Length0 && x < img.Length1 && idx + 3 <= |stream|
    modifies img
    ensures img[y, x] == WithLsbs(old(img[y, x]), stream[idx..idx + 3])
    ensures forall y', x' :: 0 <= y' < img.Length0 && 0 <= x' < img.Length1 && (y' != y || x' != x) ==>
      img[y', x'] == old(img[y', x'])
  {
    var Pixel(b, g, r) := img[y, x];
    var r' := SetLsb(r, stream[idx]);
    var g' := SetLsb(g, stream[idx + 1]);
    var b' := SetLsb(b, stream[idx + 2]);
    img[y, x] := Pixel(b', g', r');
  }

  /** `valid_encoding`: read the LSBs of the first eight pixels of row 0 in red, green, blue
      order, decode the 24 bits as three characters and compare them with `<!>`. */
  method ValidEncoding(img: array2<Pixel>) returns (result: Result<bool>)
    ensures result == StartCheck(Pixels(img), img.Length0, img.Length1)
  {
    var h, w := img.Length0, img.Length1;
    if h == 0 || w < 8 {
      return Failure(IndexOutOfRange);
    }
    ghost var ps := Pixels(img);
    PixelsRowMajor(img);
    MulMonotone(1, h, w);
    var extracted: seq<bool> := [];
    for x := 0 to 8
      invariant extracted == ChannelBits(ps[..x])
    {
      ScanOneMore(ps, x);
      var Pixel(b, g, r) := img[0, x];
      extracted := extracted + [Lsb(r), Lsb(g), Lsb(b)];
    }
    var token := CharsOf(extracted);
    return Success(token == StartToken);
  }

  /** `extract`, one pass: gather LSBs in the same order as `encode` wrote them, appending each
      only while the gathered bits do not end with the stop token; after the pass, strip the
      tokens and decode, or report that the stop token never appeared. */
  method Extract(img: array2<Pixel>) returns (result: Result<string>)
    ensures result == ExtractBits(ChannelBits(Pixels(img)))
  {
    PixelsRowMajor(img);
    result := ExtractPass(img, Pixels(img));
  }

  /** The pass itself, with `ps` standing for the image's pixels in row-major order. */
  method ExtractPass(img: array2<Pixel>, ghost ps: seq<Pixel>) returns (result: Result<string>)
    requires RowMajor(img, ps)
    ensures result == ExtractBits(ChannelBits(ps))
  {
    var message: seq<bool> := [];
    var stop := false;
    ghost var scanned := 0;  // pixels whose bits have been offered: y * w
    for y := 0 to img.Length0
      invariant scanned == y * img.Length1 && scanned <= |ps|
      invariant message == Gathered(ps, scanned)
      invariant stop == EndsWithStop(message)
    {
      NextRow(y, img.Length1);
      MulMonotone(y + 1, img.Length0, img.Length1);
      message, stop := ExtractRow(img, ps, y, scanned, message);
      scanned := scanned + img.Length1;
    }
    GatheredIsStopScan(ps, |ps|);
    assert ps[..|ps|] == ps;
    if !stop {
      return Failure(StopTokenNotFound);
    }
    return Success(Unframe(message));
  }

  /** One row of the pass: offer each pixel's red, green and blue LSBs in turn, and leave the
      row at the first pixel after which the gathered bits end with the stop token. Every later
      pixel of the row would have added nothing. */
  method ExtractRow(img: array2<Pixel>, ghost ps: seq<Pixel>, y: nat, ghost start: nat, message0: seq<bool>)
    returns (message: seq<bool>, stop: bool)
    requires RowMajor(img, ps) && y < img.Length0
    requires start == y * img.Length1 && start + img.Length1 <= |ps|
    requires message0 == Gathered(ps, start)
    ensures message == Gathered(ps, start + img.Length1)
    ensures stop == EndsWithStop(message)
  {
    message := message0;
    stop := false;
    var x := 0;
    ghost var k := start;  // pixels offered so far
    while x < img.Length1 && !stop
      invariant 0 <= x <= img.Length1 && k == start + x
      invariant message == Gathered(ps, k)
      invariant stop ==> EndsWithStop(message)
    {
      assert img[y, x] == ps[k];
      GatheredNext(ps, k, message, img[y, x]);
      message := GatherLsbs(img, y, x, message);
      k := k + 1;
      stop := EndsWithStop(message);
      x := x + 1;
    }
    if stop {
      GatheredStable(ps, k, start + img.Length1);
    }
    stop := EndsWithStop(message);
  }

  /** The body of `extract`'s inner loop for pixel (y, x): its red, green and blue LSBs, each
      appended only while the gathered bits do not end with the stop token. */
  method GatherLsbs(img: array2<Pixel>, y: nat, x: nat, message0: seq<bool>) returns (message: seq<bool>)
    requires y < img.Length0 && x < img.Length1
    ensures message == GatherBits(message0, PixelBits(img[y, x]))
  {
    var Pixel(b, g, r) := img[y, x];
    message := Gather(message0, Lsb(r));
    message := Gather(message, Lsb(g));
    message := Gather(message, Lsb(b));
    GatherBitsThree(message0, Lsb(r), Lsb(g), Lsb(b));
  }

  /** Gathering three bits is three guarded steps. */
  lemma GatherBitsThree(message: seq<bool>, r: bool, g: bool, b: bool)
    ensures GatherBits(message, [r, g, b]) == Gather(Gather(Gather(message, r), g), b)
  {
    GatherBitsSnoc(message, [], r);
    assert [] + [r] == [r];
    GatherBitsSnoc(message, [r], g);
    assert [r] + [g] == [r, g];
    GatherBitsSnoc(message, [r, g], b);
    assert [r, g] + [b] == [r, g, b];
  }

  /** Gathering one more bit after a run is one more guarded step. */
  lemma GatherBitsSnoc(message: seq<bool>, bits: seq<bool>, b: bool)
    ensures GatherBits(message, bits + [b]) == Gather(GatherBits(message, bits), b)
  {
    assert (bits + [b])[..|bits|] == bits;
  }

  /** The bits `extract` has gathered after offering the first k pixels' slots, one guarded
      step per slot. */
  function Gathered(ps: seq<Pixel>, k: nat): seq<bool>
    requires k <= |ps|
  {
    if k == 0 then []
    else GatherBits(Gathered(ps, k - 1), PixelBits(ps[k - 1]))
  }

  /** The next pixel's step extends the gathered bits. */
  lemma GatheredNext(ps: seq<Pixel>, k: nat, message: seq<bool>, p: Pixel)
    requires k < |ps| && message == Gathered(ps, k) && p == ps[k]
    ensures GatherBits(message, PixelBits(p)) == Gathered(ps, k + 1)
  {
  }

  /** Once the gathered bits end with the stop token, further pixels add nothing. */
  lemma {:induction false} GatheredStable(ps: seq<Pixel>, k: nat, j: nat)
    requires k <= j <= |ps| && EndsWithStop(Gathered(ps, k))
    ensures Gathered(ps, j) == Gathered(ps, k)
  {
    if j > k {
      GatheredStable(ps, k, j - 1);
      GatheredStopped(ps, j - 1);
    }
  }

  /** A pixel offered after the stop token has been gathered adds nothing. */
  lemma GatheredStopped(ps: seq<Pixel>, n: nat)
    requires n < |ps|
    ensures EndsWithStop(Gathered(ps, n)) ==> Gathered(ps, n + 1) == Gathered(ps, n)
  {
    if EndsWithStop(Gathered(ps, n)) {
      GatherBitsStopped(Gathered(ps, n), PixelBits(ps[n]));
    }
  }

  /** Gathering pixel by pixel is the stop scan over those pixels' bits. */
  lemma {:induction false} GatheredIsStopScan(ps: seq<Pixel>, k: nat)
    requires k <= |ps|
    ensures Gathered(ps, k) == StopScan(ChannelBits(ps[..k]))
  {
    if k > 0 {
      GatheredIsStopScan(ps, k - 1);
      ScanOneMore(ps, k - 1);
      StopScanAppend(ChannelBits(ps[..k - 1]), PixelBits(ps[k - 1]));
    }
  }

  /** Scanning one more pixel appends its red, green and blue LSBs. */
  lemma ScanOneMore(ps: seq<Pixel>, n: nat)
    requires n < |ps|
    ensures ChannelBits(ps[..n + 1]) == ChannelBits(ps[..n]) + PixelBits(ps[n])
  {
    assert ps[..n + 1][..n] == ps[..n];
  }

  /** `decode`: extract only from an image whose first pixels carry the start token. */
  method Decode(img: array2<Pixel>) returns (result: Result<string>)
    ensures result == DecodeImage(Pixels(img), img.Length0, img.Length1)
  {
    var valid := ValidEncoding(img);
    match valid
    case Failure(e) =>
      result := Failure(e);
    case Success(found) =>
      if found {
        result := Extract(img);
      } else {
        result := Failure(NotEncoded);
      }
  }

  /** Encoding a message into an image and decoding the image: the encoding is accepted exactly
      as `encode` accepts it, and the message comes back whenever the corrected capacity check
      accepts it too, for an image at least 8 pixels wide and a message of 8-bit characters whose
      stream does not complete the stop token early. */
  method EncodeThenDecode(img: array2<Pixel>, m: string) returns (outcome: Outcome, result: Result<string>)
    requires img.Length1 >= 8
    requires AllBytes(m) && NoEarlyStop(m)
    modifies img
    ensures outcome.Pass? <==> !ExceedsCapacityAsWritten(|MessageBits(m)|, img.Length0, img.Length1)
    ensures !ExceedsCapacity(|MessageBits(m)|, img.Length0, img.Length1) ==>
      outcome.Pass? && result == Success(m)
  {
    ghost var before := Pixels(img);
    outcome := Encode(img, m);
    if !ExceedsCapacity(|MessageBits(m)|, img.Length0, img.Length1) {
      RoundTrip(before, img.Length0, img.Length1, m);
    }
    result := Decode(img);
  }
}
