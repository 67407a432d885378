/** Pixels and their channel slots: which three bits a pixel carries, what embedding a
    stream does to one pixel and to a whole row-major pixel sequence. */
module Channels {
  import opened Bits

  /** One pixel in OpenCV's storage order: blue, green, red (`(b,g,r) = image[y][x]`). */
  datatype Pixel = Pixel(b: Byte, g: Byte, r: Byte)

  /** The three channel slots of a pixel in the order both scans use them: red, green, blue.
      `PixelBitsAreLastDigits` shows these are the digits both scans read. */
  function PixelBits(p: Pixel): (bits: seq<bool>)
    ensures |bits| == 3
  {
    [Lsb(p.r), Lsb(p.g), Lsb(p.b)]
  }

  /** A pixel's slots are the last digits of `format(r, '08b')`, `format(g, '08b')` and
      `format(b, '08b')`, in that order. */
  lemma PixelBitsAreLastDigits(p: Pixel)
    ensures PixelBits(p) == [Format08b(p.r)[7], Format08b(p.g)[7], Format08b(p.b)[7]]
  {
    LsbIsLastDigit(p.r);
    LsbIsLastDigit(p.g);
    LsbIsLastDigit(p.b);
  }

  /** Two pixels agree in the seven upper bits of every channel. */
  predicate SameUpperBits(p: Pixel, q: Pixel) {
    p.b / 2 == q.b / 2 && p.g / 2 == q.g / 2 && p.r / 2 == q.r / 2
  }

  /** A pixel whose red, green and blue LSBs are replaced by three stream bits, in that order,
      and which is stored back as (b, g, r). */
  function WithLsbs(p: Pixel, bits: seq<bool>): (q: Pixel)
    requires |bits| == 3
    ensures PixelBits(q) == bits
    ensures SameUpperBits(p, q)
  {
    Pixel(SetLsb(p.b, bits[2]), SetLsb(p.g, bits[1]), SetLsb(p.r, bits[0]))
  }

  /** The pixel at row-major index k after embedding stream s (whose length is a multiple
      of 3): it carries stream bits 3k, 3k+1, 3k+2 while the stream lasts, and is left as it
      was past the end of the stream. */
  function EmbedPixel(p: Pixel, s: seq<bool>, k: nat): (q: Pixel)
    requires |s| % 3 == 0
    ensures 3 * k < |s| ==> PixelBits(q) == s[3 * k .. 3 * k + 3]
    ensures 3 * k >= |s| ==> q == p
    ensures SameUpperBits(p, q)
  {
    if 3 * k < |s| then WithLsbs(p, s[3 * k .. 3 * k + 3]) else p
  }

  /** A row-major pixel sequence after embedding stream s. */
  function Embedded(ps: seq<Pixel>, s: seq<bool>): (r: seq<Pixel>)
    requires |s| % 3 == 0
    ensures |r| == |ps|
    ensures forall k :: 0 <= k < |ps| ==> SameUpperBits(ps[k], r[k])
    ensures forall k :: 0 <= k < |ps| && 3 * k < |s| ==> PixelBits(r[k]) == s[3 * k .. 3 * k + 3]
    ensures forall k :: 0 <= k < |ps| && 3 * k >= |s| ==> r[k] == ps[k]
  {
    seq(|ps|, k requires 0 <= k < |ps| => EmbedPixel(ps[k], s, k))
  }

  /** Every channel slot's bit of a row-major pixel sequence, in scan order. */
  function ChannelBits(ps: seq<Pixel>): (bits: seq<bool>)
    ensures |bits| == 3 * |ps|
  {
    if ps == [] then [] else ChannelBits(ps[..|ps| - 1]) + PixelBits(ps[|ps| - 1])
  }

  /** Pixel k's slots are bits 3k, 3k+1, 3k+2 of the scan. */
  lemma {:induction false} ChannelBitsAt(ps: seq<Pixel>, k: nat)
    requires k < |ps|
    ensures ChannelBits(ps)[3 * k .. 3 * k + 3] == PixelBits(ps[k])
  {
    var init := ps[..|ps| - 1];
    if k < |ps| - 1 {
      ChannelBitsAt(init, k);
      assert ChannelBits(ps)[..3 * |init|] == ChannelBits(init);
      assert ChannelBits(ps)[3 * k .. 3 * k + 3] == ChannelBits(init)[3 * k .. 3 * k + 3];
    }
  }

  /** Slot c (0 red, 1 green, 2 blue) of pixel k is bit 3k + c of the scan. */
  lemma SlotAt(ps: seq<Pixel>, k: nat, c: nat)
    requires k < |ps| && c < 3
    ensures ChannelBits(ps)[3 * k + c] == PixelBits(ps[k])[c]
  {
    ChannelBitsAt(ps, k);
    assert ChannelBits(ps)[3 * k + c] == ChannelBits(ps)[3 * k .. 3 * k + 3][c];
  }

  /** Scanning the first n pixels gives the first 3n bits of the whole scan. */
  lemma {:induction false} ChannelBitsPrefix(ps: seq<Pixel>, n: nat)
    requires n <= |ps|
    ensures ChannelBits(ps[..n]) == ChannelBits(ps)[..3 * n]
  {
    if n < |ps| {
      var init := ps[..|ps| - 1];
      ChannelBitsPrefix(init, n);
      assert init[..n] == ps[..n];
      assert ChannelBits(ps)[..3 * |init|] == ChannelBits(init);
    } else {
      assert ps[..n] == ps;
    }
  }

  /** Slot c of pixel k in the scan after embedding. */
  lemma EmbeddedBitAt(ps: seq<Pixel>, s: seq<bool>, k: nat, c: nat)
    requires |s| % 3 == 0 && k < |ps| && c < 3
    ensures ChannelBits(Embedded(ps, s))[3 * k + c] ==
      if 3 * k + c < |s| then s[3 * k + c] else ChannelBits(ps)[3 * k + c]
  {
    var e := Embedded(ps, s);
    assert e[k] == EmbedPixel(ps[k], s, k);
    var n := |s| / 3;
    assert |s| == 3 * n;
    SlotAt(e, k, c);
    SlotAt(ps, k, c);
    if k < n {
      assert s[3 * k + c] == s[3 * k .. 3 * k + 3][c];
    }
  }

  /** After embedding, a scan reads the stream back in every slot the stream reaches and the
      original bit in every other slot; pixels past the stream are untouched, and no pixel
      changes above its LSBs. */
  lemma EmbeddedBits(ps: seq<Pixel>, s: seq<bool>)
    requires |s| % 3 == 0
    ensures |Embedded(ps, s)| == |ps|
    ensures forall i :: 0 <= i < 3 * |ps| ==>
      ChannelBits(Embedded(ps, s))[i] == if i < |s| then s[i] else ChannelBits(ps)[i]
    ensures forall k :: 0 <= k < |ps| ==> SameUpperBits(ps[k], Embedded(ps, s)[k])
    ensures forall k :: 0 <= k < |ps| && 3 * k >= |s| ==> Embedded(ps, s)[k] == ps[k]
  {
    forall i | 0 <= i < 3 * |ps|
      ensures ChannelBits(Embedded(ps, s))[i] == if i < |s| then s[i] else ChannelBits(ps)[i]
    {
      EmbeddedBitAt(ps, s, i / 3, i % 3);
    }
  }
}
