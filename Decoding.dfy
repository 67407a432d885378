/** What `valid_encoding`, `extract` and `decode` compute, stated on the row-major pixel
    sequence of an image, and the round trip of `encode` followed by `decode`. */
module Decoding {
  import opened Bits
  import opened Framing
  import opened Channels
  import opened Errors

  /** `s` ends with the bit pattern `token`. */
  predicate EndsWith(s: seq<bool>, token: seq<bool>) {
    |s| >= |token| && s[|s| - |token|..] == token
  }

  /** `message[-24:] == stop_token`: the bits gathered so far end with the stop token. */
  predicate EndsWithStop(s: seq<bool>) {
    EndsWith(s, StopBits())
  }

  /** Gathering scanned bits one at a time, each appended unless what has been gathered
      already ends with `token`. */
  function ScanUntil(bits: seq<bool>, token: seq<bool>): (r: seq<bool>)
    ensures |r| <= |bits|
  {
    if bits == [] then []
    else
      var p := ScanUntil(bits[..|bits| - 1], token);
      if EndsWith(p, token) then p else p + [bits[|bits| - 1]]
  }

  /** The bits `extract` gathers from the scanned bits: each bit is appended unless what has
      been gathered already ends with the stop token. */
  function StopScan(bits: seq<bool>): (r: seq<bool>)
    ensures |r| <= |bits|
  {
    ScanUntil(bits, StopBits())
  }

  /** The gathered bits are a prefix of the scan: one that ends with the token, or the whole
      scan. */
  lemma {:induction false} ScanUntilPrefix(bits: seq<bool>, token: seq<bool>)
    ensures ScanUntil(bits, token) == bits[..|ScanUntil(bits, token)|]
    ensures EndsWith(ScanUntil(bits, token), token) || ScanUntil(bits, token) == bits
  {
    if bits != [] {
      var init := bits[..|bits| - 1];
      ScanUntilPrefix(init, token);
      assert init + [bits[|bits| - 1]] == bits;
    }
  }

  /** No shorter prefix of the scan than the gathered bits ends with the token. */
  lemma {:induction false} ScanUntilShortest(bits: seq<bool>, token: seq<bool>)
    ensures forall i :: 0 <= i < |ScanUntil(bits, token)| ==> !EndsWith(bits[..i], token)
  {
    if bits != [] {
      var init := bits[..|bits| - 1];
      var p := ScanUntil(init, token);
      ScanUntilShortest(init, token);
      ScanUntilPrefix(init, token);
      forall i | 0 <= i < |ScanUntil(bits, token)| ensures !EndsWith(bits[..i], token) {
        assert bits[..i] == init[..i];
        if i == |p| {
          assert init[..i] == p;
        }
      }
    }
  }

  /** The same for the stop token: `extract` gathers the shortest prefix of the scan that ends
      with it, or the whole scan. */
  lemma StopScanShortest(bits: seq<bool>)
    ensures StopScan(bits) == bits[..|StopScan(bits)|]
    ensures forall i :: 0 <= i < |StopScan(bits)| ==> !EndsWithStop(bits[..i])
    ensures EndsWithStop(StopScan(bits)) || StopScan(bits) == bits
  {
    ScanUntilPrefix(bits, StopBits());
    ScanUntilShortest(bits, StopBits());
  }

  /** One step of `extract`'s gathering (lines 179-184; line 185 then sets `stop`): append a bit unless the gathered
      bits already end with the stop token. */
  function Gather(message: seq<bool>, bit: bool): seq<bool> {
    if EndsWithStop(message) then message else message + [bit]
  }

  /** Scanning one more bit is one step of gathering. */
  lemma StopScanSnoc(bits: seq<bool>, b: bool)
    ensures StopScan(bits + [b]) == Gather(StopScan(bits), b)
  {
    assert (bits + [b])[..|bits|] == bits;
  }

  /** Gathering a run of bits one guarded step at a time. */
  function GatherBits(message: seq<bool>, bits: seq<bool>): seq<bool>
  {
    if bits == [] then message
    else Gather(GatherBits(message, bits[..|bits| - 1]), bits[|bits| - 1])
  }

  /** Scanning further bits continues the gathering where it stood. */
  lemma {:induction false} StopScanAppend(before: seq<bool>, bits: seq<bool>)
    ensures StopScan(before + bits) == GatherBits(StopScan(before), bits)
  {
    if bits == [] {
      assert before + bits == before;
    } else {
      var init, last := bits[..|bits| - 1], bits[|bits| - 1];
      StopScanAppend(before, init);
      AppendSnoc(before, bits);
      StopScanSnoc(before + init, last);
      assert GatherBits(StopScan(before), bits) == Gather(GatherBits(StopScan(before), init), last);
    }
  }

  lemma AppendSnoc(a: seq<bool>, b: seq<bool>)
    requires b != []
    ensures a + b == (a + b[..|b| - 1]) + [b[|b| - 1]]
  {
  }

  /** Gathered bits that end with the stop token take no further bits. */
  lemma {:induction false} GatherBitsStopped(message: seq<bool>, bits: seq<bool>)
    requires EndsWithStop(message)
    ensures GatherBits(message, bits) == message
  {
    if bits != [] {
      GatherBitsStopped(message, bits[..|bits| - 1]);
    }
  }

  /** The gathered bits are the prefix up to the first completed stop token, whatever follows it. */
  lemma StopScanFirst(bits: seq<bool>, j: nat)
    requires j <= |bits| && EndsWithStop(bits[..j])
    requires forall i :: 0 <= i < j ==> !EndsWithStop(bits[..i])
    ensures StopScan(bits) == bits[..j]
  {
    StopScanShortest(bits);
  }

  /** Once the gathered bits end with the stop token, scanning further bits changes nothing. */
  lemma StopScanStable(b: seq<bool>, c: seq<bool>)
    requires b <= c && EndsWithStop(StopScan(b))
    ensures StopScan(c) == StopScan(b)
  {
    var r := StopScan(b);
    StopScanShortest(b);
    assert r == c[..|r|];
    forall i | 0 <= i < |r| ensures !EndsWithStop(c[..i]) {
      assert c[..i] == b[..i];
    }
    StopScanFirst(c, |r|);
  }

  /** `message[24:-24]` decoded chunk by chunk (lines 192-198); fewer than 48 bits leave nothing. */
  function Unframe(p: seq<bool>): (r: string)
    ensures |r| == if |p| >= 48 then (|p| - 48 + 7) / 8 else 0
  {
    CharsOf(if |p| >= 48 then p[24..|p| - 24] else [])
  }

  /** One pass of `extract` over the scanned bits. */
  function ExtractBits(bits: seq<bool>): (r: Result<string>)
    ensures r.Failure? ==> r.error == StopTokenNotFound && !EndsWithStop(bits)
  {
    StopScanShortest(bits);
    var p := StopScan(bits);
    if EndsWithStop(p) then Success(Unframe(p)) else Failure(StopTokenNotFound)
  }

  /** A pass succeeds exactly when some prefix of the scan ends with the stop token, and then
      decodes the shortest such prefix. */
  lemma ExtractBitsFindsFirstStop(bits: seq<bool>, j: nat)
    requires j <= |bits|
    ensures ExtractBits(bits).Failure? ==> !EndsWithStop(bits[..j])
    ensures (forall i :: 0 <= i <= |bits| ==> !EndsWithStop(bits[..i])) ==>
      ExtractBits(bits) == Failure(StopTokenNotFound)
    ensures EndsWithStop(bits[..j]) && (forall i :: 0 <= i < j ==> !EndsWithStop(bits[..i])) ==>
      ExtractBits(bits) == Success(Unframe(bits[..j]))
  {
    var p := StopScan(bits);
    StopScanShortest(bits);
    ExtractBitsWithoutStop(bits);
    if !EndsWithStop(p) {
      assert p == bits;
      if j == |bits| {
        assert bits[..j] == bits;
      }
    }
    if EndsWithStop(bits[..j]) && (forall i :: 0 <= i < j ==> !EndsWithStop(bits[..i])) {
      StopScanFirst(bits, j);
    }
  }

  /** A pass over a scan in which no prefix ends with the stop token reports that the stop token
      was not found. */
  lemma ExtractBitsWithoutStop(bits: seq<bool>)
    ensures (forall j :: 0 <= j <= |bits| ==> !EndsWithStop(bits[..j])) ==>
      ExtractBits(bits) == Failure(StopTokenNotFound)
  {
    StopScanShortest(bits);
    assert StopScan(bits) == bits[..|StopScan(bits)|];
  }

  /** `valid_encoding` on an image with h rows of w pixels: it indexes row 0, pixels 0 to 7, so
      a smaller image is an index error; otherwise the start token is recognised exactly when
      those pixels' 24 slots hold its bits. */
  function StartCheck(ps: seq<Pixel>, h: nat, w: nat): (r: Result<bool>)
    requires |ps| == h * w
    ensures r.Failure? <==> h == 0 || w < 8
    ensures r.Failure? ==> r.error == IndexOutOfRange
    ensures r.Success? ==> |ps| >= 8 && (r.value <==> ChannelBits(ps[..8]) == StartBits())
  {
    if h == 0 || w < 8 then Failure(IndexOutOfRange)
    else
      MulMonotone(1, h, w);
      StartTokenSpelled(ChannelBits(ps[..8]));
      Success(CharsOf(ChannelBits(ps[..8])) == StartToken)
  }

  lemma MulMonotone(a: nat, b: nat, w: nat)
    requires a <= b
    ensures a * w <= b * w
  {
  }

  /** `decode`: extract only when the start token is present, otherwise reject the carrier. */
  function DecodeImage(ps: seq<Pixel>, h: nat, w: nat): (r: Result<string>)
    requires |ps| == h * w
    ensures r.Success? ==> |ps| >= 8 && ChannelBits(ps)[..24] == StartBits()
    ensures r == Failure(NotEncoded) <==>
      h >= 1 && w >= 8 && |ps| >= 8 && ChannelBits(ps[..8]) != StartBits()
    ensures r == Failure(IndexOutOfRange) <==> h == 0 || w < 8
    ensures h >= 1 && w >= 8 && |ps| >= 8 && ChannelBits(ps[..8]) == StartBits() ==>
      r == ExtractBits(ChannelBits(ps))
  {
    match StartCheck(ps, h, w)
    case Failure(e) => Failure(e)
    case Success(found) =>
      if found then
        ChannelBitsPrefix(ps, 8);
        ExtractBits(ChannelBits(ps))
      else Failure(NotEncoded)
  }

  /** The stop token does not complete anywhere inside the delimited stream before its own end. */
  predicate NoEarlyStop(m: string) {
    var d := Delimited(m);
    forall i :: 0 <= i < |d| ==> !EndsWithStop(d[..i])
  }

  /** The scan of an image into which a stream was embedded starts with the stream, as far as
      the image reaches. */
  lemma ScanStartsWithStream(ps: seq<Pixel>, s: seq<bool>, n: nat)
    requires |s| % 3 == 0 && n <= |s| && n <= 3 * |ps|
    ensures ChannelBits(Embedded(ps, s))[..n] == s[..n]
  {
    EmbeddedBits(ps, s);
  }

  /** Decoding an image into which a message was embedded gives the message back, when its
      characters are 8-bit, the image is at least 8 pixels wide, the corrected capacity check
      accepts it and the stop token's bit pattern does not complete earlier in the stream. */
  lemma RoundTrip(ps: seq<Pixel>, h: nat, w: nat, m: string)
    requires |ps| == h * w && w >= 8
    requires AllBytes(m)
    requires !ExceedsCapacity(|MessageBits(m)|, h, w)
    requires NoEarlyStop(m)
    ensures DecodeImage(Embedded(ps, Frame(m)), h, w) == Success(m)
  {
    var e := Embedded(ps, Frame(m));
    CapacityMeansFit(m, h, w);
    DelimitedStart(m);
    SomeRow(h, w);
    EmbeddedStartsWithDelimited(ps, m);
    RoundTripTail(e, h, w, m, ChannelBits(e));
  }

  /** An image with at least one pixel has at least one row. */
  lemma SomeRow(h: nat, w: nat)
    ensures h * w >= 1 ==> h >= 1
  {
  }

  /** The scan of an image into which a framed message was embedded starts with the delimited
      message, when the delimited message fits. */
  lemma EmbeddedStartsWithDelimited(ps: seq<Pixel>, m: string)
    requires |Delimited(m)| <= 3 * |ps|
    ensures |Delimited(m)| <= |ChannelBits(Embedded(ps, Frame(m)))|
    ensures ChannelBits(Embedded(ps, Frame(m)))[..|Delimited(m)|] == Delimited(m)
  {
    var s := Frame(m);
    ScanStartsWithStream(ps, s, |Delimited(m)|);
  }

  /** A scan that starts with a delimited message in which the stop token completes only at
      its end gives back that message. */
  lemma ExtractDelimited(bits: seq<bool>, m: string)
    requires AllBytes(m) && NoEarlyStop(m)
    requires |Delimited(m)| <= |bits| && bits[..|Delimited(m)|] == Delimited(m)
    ensures ExtractBits(bits) == Success(m)
  {
    var d := Delimited(m);
    var n := |d|;
    forall i | 0 <= i < n ensures !EndsWithStop(bits[..i]) {
      assert bits[..i] == d[..i];
    }
    assert d[n - 24..] == StopBits();
    StopScanFirst(bits, n);
    assert d[24..n - 24] == MessageBits(m);
    CharsOfMessageBits(m);
  }

  lemma RoundTripTail(e: seq<Pixel>, h: nat, w: nat, m: string, bits: seq<bool>)
    requires |e| == h * w && w >= 8 && h >= 1
    requires AllBytes(m) && NoEarlyStop(m)
    requires bits == ChannelBits(e)
    requires |Delimited(m)| <= |bits| && bits[..|Delimited(m)|] == Delimited(m)
    ensures DecodeImage(e, h, w) == Success(m)
  {
    DelimitedStart(m);
    StartRecognised(e, h, w, bits, Delimited(m));
    ExtractDelimited(bits, m);
  }

  /** An image whose scan starts with a delimited stream passes the start-token check. */
  lemma StartRecognised(e: seq<Pixel>, h: nat, w: nat, bits: seq<bool>, d: seq<bool>)
    requires |e| == h * w && w >= 8 && h >= 1
    requires bits == ChannelBits(e)
    requires 24 <= |d| <= |bits| && bits[..|d|] == d && d[..24] == StartBits()
    ensures StartCheck(e, h, w) == Success(true)
  {
    MulMonotone(1, h, w);
    ChannelBitsPrefix(e, 8);
    assert bits[..24] == bits[..|d|][..24];
  }

  /** Every delimited stream starts with the start token. */
  lemma DelimitedStart(m: string)
    ensures |Delimited(m)| >= 48 && Delimited(m)[..24] == StartBits()
  {
    SliceOfFirst(StartBits(), MessageBits(m) + StopBits(), 0, 24);
    assert Delimited(m) == StartBits() + (MessageBits(m) + StopBits());
  }

  /** Finding, as written: the check at line 28 accepts the empty message on a 1 x 8 image, whose
      24 slots then hold only the start token; a single pass never meets the stop token
      (`extract`'s `while not stop` rescans the image for ever). */
  lemma AsWrittenCheckLosesStopToken(ps: seq<Pixel>)
    requires |ps| == 8
    ensures !ExceedsCapacityAsWritten(|MessageBits("")|, 1, 8)
    ensures DecodeImage(Embedded(ps, Frame("")), 1, 8) == Failure(StopTokenNotFound)
  {
    var s := Frame("");
    var e := Embedded(ps, s);
    var bits := ChannelBits(e);
    EmbeddedBits(ps, s);
    assert bits == StartBits() by {
      forall i | 0 <= i < 24 ensures bits[i] == StartBits()[i] {
        assert s[..|Delimited("")|][i] == s[i];
      }
    }
    assert e[..8] == e;
    assert StartCheck(e, 1, 8) == Success(true);
    TokensDiffer();
    StopScanShortest(bits);
  }

  /** Corrected: the check that subtracts the 48 token bits refuses that message, and it is
      stricter than the check as written, so every message it accepts is one `encode` embeds
      (and `RoundTrip` then decodes back). */
  lemma CorrectedCheckKeepsStopToken(h: nat, w: nat, m: string)
    ensures ExceedsCapacity(|MessageBits("")|, 1, 8)
    ensures !ExceedsCapacity(|MessageBits(m)|, h, w) ==>
      !ExceedsCapacityAsWritten(|MessageBits(m)|, h, w) && |Delimited(m)| <= h * w * 3
  {
  }

  /** The framed stream of the empty message is 51 bits (48 token bits and three zeros), that of
      "hi" is 66 bits (64 and two zeros). */
  lemma FrameLengths()
    ensures |Frame("")| == 51
    ensures |Frame("hi")| == 66
  {
    assert AllBytes("hi");
    assert |MessageBits("hi")| == 16;
  }

  /** A 24-bit window that disagrees with the stop token at one position is not the stop token. */
  lemma WindowDiffers(d: seq<bool>, i: nat, j: nat)
    requires 24 <= i <= |d| && j < 24 && d[i - 24 + j] != StopBits()[j]
    ensures d[i - 24..i] != StopBits()
  {
    assert d[i - 24..i][j] == d[i - 24 + j];
  }

  /** In a stream that starts with the start token, the stop token cannot complete at bits 25 to
      35: each window overlapping the start token disagrees with it within the start token. */
  lemma StartWindowsEarly(d: seq<bool>, i: nat)
    requires 24 <= |d| && d[..24] == StartBits() && 25 <= i < 36 && i <= |d|
    ensures d[i - 24..i] != StopBits()
  {
    var k := i - 24;
    // for each shift k, one position where the window and the stop token disagree
    var j := [1, 0, 0, 0, 0, 2, 2, 3, 1, 0, 2][k - 1];
    assert d[k + j] == d[..24][k + j];
    WindowDiffers(d, i, j);
  }

  /** Likewise for the windows ending at bits 36 to 46. */
  lemma StartWindowsLate(d: seq<bool>, i: nat)
    requires 24 <= |d| && d[..24] == StartBits() && 36 <= i < 47 && i <= |d|
    ensures d[i - 24..i] != StopBits()
  {
    var k := i - 24;
    var j := [2, 3, 1, 0, 6, 1, 0, 0, 0, 0, 0][k - 12];
    assert d[k + j] == d[..24][k + j];
    WindowDiffers(d, i, j);
  }

  /** In a stream that starts with the start token the stop token cannot complete at bits 24
      to 46; the start and stop tokens do not overlap. */
  lemma StartWindows(d: seq<bool>, i: nat)
    requires 24 <= |d| && d[..24] == StartBits() && 24 <= i < 47 && i <= |d|
    ensures !EndsWithStop(d[..i])
  {
    if i == 24 {
      TokensDiffer();
      assert d[..i] == StartBits();
    } else if i < 36 {
      StartWindowsEarly(d, i);
    } else {
      StartWindowsLate(d, i);
    }
    assert d[..i][i - 24..] == d[i - 24..i];
  }

  /** In the stream of the empty message the stop token completes only at its end. */
  lemma EmptyNoEarlyStop()
    ensures NoEarlyStop("")
  {
    var d := Delimited("");
    assert MessageBits("") == [];
    assert d == StartBits() + StopBits();
    assert d[..24] == StartBits();
    forall i | 0 <= i < |d| ensures !EndsWithStop(d[..i]) {
      if 24 <= i < 47 {
        StartWindows(d, i);
      } else if i == 47 {
        WindowDiffers(d, 47, 2);
        assert d[..i][i - 24..] == d[i - 24..i];
      }
    }
  }

  /** Decoding an image into which the empty message was embedded gives the empty message. */
  lemma EmptyMessageRoundTrip(ps: seq<Pixel>, h: nat, w: nat)
    requires |ps| == h * w && w >= 8 && h * w * 3 >= 48
    ensures DecodeImage(Embedded(ps, Frame("")), h, w) == Success("")
  {
    EmptyNoEarlyStop();
    assert AllBytes("");
    RoundTrip(ps, h, w, "");
  }

  /** `format(ord('h'), '08b')` and `format(ord('i'), '08b')`, digit by digit. */
  lemma HiCharBits()
    ensures Format08b(104) == [false, true, true, false, true, false, false, false]
    ensures Format08b(105) == [false, true, true, false, true, false, false, true]
  {
    assert FixedWidth(0, 1) == [false];
    assert FixedWidth(1, 2) == [false, true];
    assert FixedWidth(3, 3) == [false, true, true];
    assert FixedWidth(6, 4) == [false, true, true, false];
    assert FixedWidth(13, 5) == [false, true, true, false, true];
    assert FixedWidth(26, 6) == [false, true, true, false, true, false];
    assert FixedWidth(52, 7) == [false, true, true, false, true, false, false];
  }

  /** The 16 message bits of "hi". */
  function HiBits(): (r: seq<bool>)
    ensures |r| == 16
  {
    [false, true, true, false, true, false, false, false,
     false, true, true, false, true, false, false, true]
  }

  /** The delimited stream of "hi", 64 bits. */
  lemma HiDelimited()
    ensures Delimited("hi") == StartBits() + HiBits() + StopBits()
  {
    HiMessageBits();
  }

  /** The message bits of "hi": `format(ord('h'), '08b')` followed by `format(ord('i'), '08b')`. */
  lemma HiMessageBits()
    ensures MessageBits("hi") == HiBits()
  {
    HiCharBits();
    HiTwoChars();
  }

  /** "hi" is framed character by character. */
  lemma HiTwoChars()
    ensures MessageBits("hi") == Format08b(104) + Format08b(105)
  {
    assert "hi"[1..] == "i" && "i"[1..] == "";
    assert MessageBits("i") == Format08b(105) + [];
  }

  /** In the stream of "hi" the stop token completes only at its end. */
  lemma HiNoEarlyStop()
    ensures NoEarlyStop("hi")
  {
    var d := Delimited("hi");
    HiDelimited();
    assert d[..24] == StartBits();
    forall i | 0 <= i < |d| ensures !EndsWithStop(d[..i]) {
      if 24 <= i < 47 {
        StartWindows(d, i);
      } else if i >= 47 {
        if i < 56 {
          HiWindowsEarly(d, i);
        } else {
          HiWindowsLate(d, i);
        }
        assert d[..i][i - 24..] == d[i - 24..i];
      }
    }
  }

  /** The windows of the stream of "hi" ending at bits 47 to 55 are not the stop token. */
  lemma HiWindowsEarly(d: seq<bool>, i: nat)
    requires d == StartBits() + HiBits() + StopBits() && 47 <= i < 56
    ensures d[i - 24..i] != StopBits()
  {
    var k := i - 24;
    var j := [4, 1, 0, 0, 1, 0, 2, 2, 4][k - 23];
    WindowDiffers(d, i, j);
  }

  /** The windows of the stream of "hi" ending at bits 56 to 63 are not the stop token. */
  lemma HiWindowsLate(d: seq<bool>, i: nat)
    requires d == StartBits() + HiBits() + StopBits() && 56 <= i < 64
    ensures d[i - 24..i] != StopBits()
  {
    var k := i - 24;
    var j := [1, 0, 0, 1, 0, 3, 1, 0][k - 32];
    WindowDiffers(d, i, j);
  }

  /** "hi" framed into an image of at least 64 slots and 8 columns decodes back to "hi"; the
      66-bit stream reaches pixels 0 to 21 only, and every later pixel is untouched. */
  lemma HiRoundTrip(ps: seq<Pixel>, h: nat, w: nat)
    requires |ps| == h * w && w >= 8 && h * w * 3 >= 64
    ensures DecodeImage(Embedded(ps, Frame("hi")), h, w) == Success("hi")
    ensures forall k :: 22 <= k < |ps| ==> Embedded(ps, Frame("hi"))[k] == ps[k]
  {
    HiNoEarlyStop();
    assert AllBytes("hi");
    FrameLengths();
    RoundTrip(ps, h, w, "hi");
    EmbeddedBits(ps, Frame("hi"));
  }
}
