/** The bitstream codec: how `encode` turns a message into the framed bitstream
    (start token, message bytes, stop token, zero padding) and how `valid_encoding`
    and `extract` turn recovered bits back into characters. */
module Framing {
  import opened Bits

  const StartToken: string := "<!>"
  const StopToken: string := "<?>"

  /** Every character has a code point below 256, so `format(ord(c), '08b')` has exactly 8 digits. */
  predicate AllBytes(m: string) {
    forall i :: 0 <= i < |m| ==> m[i] as int < 256
  }

  /** `''.join(format(ord(c), '08b') for c in m)`. */
  function MessageBits(m: string): (r: seq<bool>)
    ensures |r| >= 8 * |m|
    ensures AllBytes(m) ==> |r| == 8 * |m|
  {
    if m == [] then [] else Format08b(m[0] as int) + MessageBits(m[1..])
  }

  /** `start_token`, the bits of `<!>` (0x3C, 0x21, 0x3E), written out so that a proof
      mentioning it need not recompute them; `TokenBits` ties it to `MessageBits`. */
  function StartBits(): (r: seq<bool>)
    ensures |r| == 24
  {
    [false, false, true, true, true, true, false, false,
     false, false, true, false, false, false, false, true,
     false, false, true, true, true, true, true, false]
  }

  /** `stop_token`, the bits of `<?>` (0x3C, 0x3F, 0x3E). */
  function StopBits(): (r: seq<bool>)
    ensures |r| == 24
  {
    [false, false, true, true, true, true, false, false,
     false, false, true, true, true, true, true, true,
     false, false, true, true, true, true, true, false]
  }

  /** `format(ord('<'), '08b')`, digit by digit. */
  lemma LessThanBits()
    ensures Format08b(60) == [false, false, true, true, true, true, false, false]
  {
    assert FixedWidth(0, 2) == [false, false];
    assert FixedWidth(1, 3) == [false, false, true];
    assert FixedWidth(3, 4) == [false, false, true, true];
    assert FixedWidth(7, 5) == [false, false, true, true, true];
    assert FixedWidth(15, 6) == [false, false, true, true, true, true];
    assert FixedWidth(30, 7) == [false, false, true, true, true, true, false];
    assert FixedWidth(60, 8) == [false, false, true, true, true, true, false, false];
  }

  /** `format(ord('!'), '08b')`, digit by digit. */
  lemma BangBits()
    ensures Format08b(33) == [false, false, true, false, false, false, false, true]
  {
    assert FixedWidth(0, 2) == [false, false];
    assert FixedWidth(1, 3) == [false, false, true];
    assert FixedWidth(2, 4) == [false, false, true, false];
    assert FixedWidth(4, 5) == [false, false, true, false, false];
    assert FixedWidth(8, 6) == [false, false, true, false, false, false];
    assert FixedWidth(16, 7) == [false, false, true, false, false, false, false];
    assert FixedWidth(33, 8) == [false, false, true, false, false, false, false, true];
  }

  /** `format(ord('?'), '08b')`, digit by digit. */
  lemma QuestionBits()
    ensures Format08b(63) == [false, false, true, true, true, true, true, true]
  {
    assert FixedWidth(0, 2) == [false, false];
    assert FixedWidth(1, 3) == [false, false, true];
    assert FixedWidth(3, 4) == [false, false, true, true];
    assert FixedWidth(7, 5) == [false, false, true, true, true];
    assert FixedWidth(15, 6) == [false, false, true, true, true, true];
    assert FixedWidth(31, 7) == [false, false, true, true, true, true, true];
    assert FixedWidth(63, 8) == [false, false, true, true, true, true, true, true];
  }

  /** `format(ord('>'), '08b')`, digit by digit. */
  lemma GreaterThanBits()
    ensures Format08b(62) == [false, false, true, true, true, true, true, false]
  {
    assert FixedWidth(0, 2) == [false, false];
    assert FixedWidth(1, 3) == [false, false, true];
    assert FixedWidth(3, 4) == [false, false, true, true];
    assert FixedWidth(7, 5) == [false, false, true, true, true];
    assert FixedWidth(15, 6) == [false, false, true, true, true, true];
    assert FixedWidth(31, 7) == [false, false, true, true, true, true, true];
    assert FixedWidth(62, 8) == [false, false, true, true, true, true, true, false];
  }

  /** The two tokens are the message bits of `<!>` and `<?>` (lines 32 and 34). */
  lemma TokenBits()
    ensures StartBits() == MessageBits(StartToken)
    ensures StopBits() == MessageBits(StopToken)
  {
    var lt := [false, false, true, true, true, true, false, false];
    var bang := [false, false, true, false, false, false, false, true];
    var question := [false, false, true, true, true, true, true, true];
    var gt := [false, false, true, true, true, true, true, false];
    LessThanBits();
    BangBits();
    QuestionBits();
    GreaterThanBits();
    assert MessageBits(">") == gt;
    assert MessageBits("!>") == bang + gt;
    assert MessageBits("?>") == question + gt;
    assert MessageBits(StartToken) == lt + (bang + gt);
    assert MessageBits(StopToken) == lt + (question + gt);
    TokensByChar();
  }

  /** The token bit strings, cut into their three characters. */
  lemma TokensByChar()
    ensures StartBits() == [false, false, true, true, true, true, false, false] +
      ([false, false, true, false, false, false, false, true] + [false, false, true, true, true, true, true, false])
    ensures StopBits() == [false, false, true, true, true, true, false, false] +
      ([false, false, true, true, true, true, true, true] + [false, false, true, true, true, true, true, false])
  {
  }

  /** Chunk i of a bit string: bits 8i up to 8i + 8, or up to the end for a short last chunk. */
  function Chunk(bits: seq<bool>, i: nat): (c: seq<bool>)
    requires 8 * i < |bits|
    ensures 1 <= |c| <= 8
  {
    bits[8 * i .. if 8 * i + 8 <= |bits| then 8 * i + 8 else |bits|]
  }

  /** `''.join(chr(int(s[i:i+8], 2)) for i in range(0, len(s), 8))`: every 8-bit chunk,
      and a shorter last chunk as well, becomes the character with that code point. */
  function CharsOf(bits: seq<bool>): (r: string)
    ensures |r| == (|bits| + 7) / 8
    ensures forall i :: 0 <= i < |r| ==> 8 * i < |bits| && r[i] as int == Value(Chunk(bits, i))
    ensures forall i :: 0 <= i < |r| ==> r[i] as int < 256
  {
    if bits == [] then []
    else
      var n := if |bits| < 8 then |bits| else 8;
      Pow2Monotone(n, 8);
      assert Pow2(8) == 256;
      ChunksAfterFirst(bits, n);
      [Value(bits[..n]) as char] + CharsOf(bits[n..])
  }

  /** Past the first chunk, the chunks of a bit string are those of the rest. */
  lemma ChunksAfterFirst(bits: seq<bool>, n: nat)
    requires bits != [] && n == (if |bits| < 8 then |bits| else 8)
    ensures Chunk(bits, 0) == bits[..n]
    ensures forall i :: 1 <= i && 8 * (i - 1) < |bits[n..]| ==>
      8 * i < |bits| && Chunk(bits, i) == Chunk(bits[n..], i - 1)
  {
    forall i | 1 <= i && 8 * (i - 1) < |bits[n..]|
      ensures 8 * i < |bits| && Chunk(bits, i) == Chunk(bits[n..], i - 1)
    {
      assert n == 8;
      var hi := if 8 * i + 8 <= |bits| then 8 * i + 8 else |bits|;
      assert Chunk(bits[n..], i - 1) == bits[n..][8 * i - 8 .. hi - 8];
    }
  }

  /** Decoding the bits of a message of 8-bit characters gives the message back. */
  lemma {:induction false} CharsOfMessageBits(m: string)
    requires AllBytes(m)
    ensures CharsOf(MessageBits(m)) == m
  {
    if m != [] {
      var head := Format08b(m[0] as int);
      var bits := MessageBits(m);
      AllBytesTail(m);
      CharsOfMessageBits(m[1..]);
      assert bits[..8] == head;
      assert bits[8..] == MessageBits(m[1..]);
    }
  }

  /** Equal decodings of two bit strings of the same whole number of bytes mean equal bits. */
  lemma CharsOfInjective(a: seq<bool>, b: seq<bool>, k: nat)
    requires |a| == |b| == 8 * k
    requires CharsOf(a) == CharsOf(b)
    ensures a == b
  {
    forall j | 0 <= j < |a| ensures a[j] == b[j] {
      var i := j / 8;
      SameChunk(a, b, k, i);
      ChunkBit(a, i, j);
      ChunkBit(b, i, j);
    }
  }

  /** Equal characters at position i of two whole-byte bit strings mean equal chunks there. */
  lemma SameChunk(a: seq<bool>, b: seq<bool>, k: nat, i: nat)
    requires |a| == |b| == 8 * k && i < k
    requires CharsOf(a) == CharsOf(b)
    ensures Chunk(a, i) == Chunk(b, i)
  {
    var ca, cb := Chunk(a, i), Chunk(b, i);
    assert |ca| == |cb| == 8;
    assert Value(ca) == CharsOf(a)[i] as int == CharsOf(b)[i] as int == Value(cb);
    ValueInjective(ca, cb);
  }

  /** Bit j of a bit string is bit j - 8 i of chunk i, for j in that chunk. */
  lemma ChunkBit(a: seq<bool>, i: nat, j: nat)
    requires 8 * i <= j < |a| && j < 8 * i + 8
    ensures a[j] == Chunk(a, i)[j - 8 * i]
  {
  }

  /** The start token's bits read back as `<!>`. */
  lemma StartBitsSpell()
    ensures CharsOf(StartBits()) == StartToken
  {
    TokenBits();
    CharsOfMessageBits(StartToken);
  }

  /** The 24 bits spell `<!>` when read back as characters exactly when they are the start token's bits. */
  lemma StartTokenSpelled(e: seq<bool>)
    requires |e| == 24
    ensures CharsOf(e) == StartToken <==> e == StartBits()
  {
    StartBitsSpell();
    if CharsOf(e) == StartToken {
      CharsOfInjective(e, StartBits(), 3);
    }
  }

  /** The start and stop tokens have different bit patterns. */
  lemma TokensDiffer()
    ensures StartBits() != StopBits()
  {
    assert StartBits()[12] != StopBits()[12];
  }

  function Zeros(n: nat): (r: seq<bool>)
    ensures |r| == n
    ensures forall i :: 0 <= i < n ==> !r[i]
  {
    seq(n, _ => false)
  }

  /** Start token, message bits and stop token, before padding (line 37). */
  function Delimited(m: string): seq<bool>
  {
    StartBits() + MessageBits(m) + StopBits()
  }

  /** The framed bitstream `encode` embeds: the delimited message followed by
      `3 - len % 3` zero bits, so one, two or three zeros, never none (line 40). */
  function Frame(m: string): (r: seq<bool>)
    ensures |r| % 3 == 0
    ensures |Delimited(m)| < |r| <= |Delimited(m)| + 3
    ensures r[..|Delimited(m)|] == Delimited(m)
    ensures forall i :: |Delimited(m)| <= i < |r| ==> !r[i]
  {
    PadToThree(Delimited(m))
  }

  /** `d + '0' * (3 - len(d) % 3)`: one to three zero bits, enough to reach a multiple of 3. */
  function PadToThree(d: seq<bool>): (r: seq<bool>)
    ensures |r| % 3 == 0
    ensures |d| < |r| <= |d| + 3
    ensures r[..|d|] == d
    ensures forall i :: |d| <= i < |r| ==> !r[i]
  {
    var z := Zeros(3 - |d| % 3);
    assert (d + z)[..|d|] == d;
    d + z
  }

  /** Layout of the framed stream of a message of 8-bit characters: 24 start bits, the eight bits of
      each character most significant first, 24 stop bits, then p zeros with p in 1..3. */
  lemma FrameLayout(m: string)
    requires AllBytes(m)
    ensures var n := |m|; var p := |Frame(m)| - 48 - 8 * n;
      1 <= p <= 3 && (48 + 8 * n + p) % 3 == 0 &&
      Frame(m)[..24] == StartBits() &&
      (forall i :: 0 <= i < n ==> Frame(m)[24 + 8 * i .. 32 + 8 * i] == Format08b(m[i] as int)) &&
      Frame(m)[24 + 8 * n .. 48 + 8 * n] == StopBits()
  {
    var f := Frame(m);
    var d := Delimited(m);
    forall i | 0 <= i < |m|
      ensures f[24 + 8 * i .. 32 + 8 * i] == Format08b(m[i] as int)
    {
      DelimitedCharAt(m, i);
      FrameSlice(m, 24 + 8 * i, 32 + 8 * i);
    }
    FrameSlice(m, 0, 24);
    FrameSlice(m, 24 + 8 * |m|, 48 + 8 * |m|);
  }

  /** Within the delimited part, the framed stream is the delimited stream. */
  lemma FrameSlice(m: string, lo: nat, hi: nat)
    requires lo <= hi <= |Delimited(m)|
    ensures Frame(m)[lo..hi] == Delimited(m)[lo..hi]
  {
    var d := Delimited(m);
    assert Frame(m)[..|d|] == d;
    assert Frame(m)[lo..hi] == Frame(m)[..|d|][lo..hi];
  }

  /** The i-th character's eight bits sit at offset 24 + 8 i of the delimited stream. */
  lemma DelimitedCharAt(m: string, i: nat)
    requires AllBytes(m) && i < |m|
    ensures 32 + 8 * i <= |Delimited(m)|
    ensures Delimited(m)[24 + 8 * i .. 32 + 8 * i] == Format08b(m[i] as int)
  {
    var mb := MessageBits(m);
    MessageBitsAt(m, i);
    SliceOfFirst(StartBits() + mb, StopBits(), 24 + 8 * i, 32 + 8 * i);
    SliceOfSecond(StartBits(), mb, 24 + 8 * i, 32 + 8 * i);
  }

  /** The i-th character's eight bits sit at offset 8 i of the message bits. */
  lemma {:induction false} MessageBitsAt(m: string, i: nat)
    requires AllBytes(m) && i < |m|
    ensures MessageBits(m)[8 * i .. 8 * i + 8] == Format08b(m[i] as int)
  {
    var head, tail := Format08b(m[0] as int), MessageBits(m[1..]);
    assert MessageBits(m) == head + tail;
    assert |head| == 8;
    if i == 0 {
      assert (head + tail)[0..8] == head;
    } else {
      AllBytesTail(m);
      MessageBitsAt(m[1..], i - 1);
      assert m[1..][i - 1] == m[i];
      SliceOfSecond(head, tail, 8 * i, 8 * i + 8);
    }
  }

  /** A slice lying in the first half of a concatenation is a slice of the first half. */
  lemma SliceOfFirst(a: seq<bool>, b: seq<bool>, lo: nat, hi: nat)
    requires lo <= hi <= |a|
    ensures (a + b)[lo..hi] == a[lo..hi]
  {
  }

  /** A slice lying in the second half of a concatenation is a slice of the second half. */
  lemma SliceOfSecond(a: seq<bool>, b: seq<bool>, lo: nat, hi: nat)
    requires |a| <= lo <= hi <= |a| + |b|
    ensures (a + b)[lo..hi] == b[lo - |a|..hi - |a|]
  {
  }

  /** The characters after the first of a message of 8-bit characters are 8-bit too. */
  lemma AllBytesTail(m: string)
    requires AllBytes(m) && m != []
    ensures AllBytes(m[1..])
  {
    forall i | 0 <= i < |m[1..]| ensures m[1..][i] as int < 256 {
      assert m[1..][i] == m[i + 1];
    }
  }

  /** The capacity check as written at line 28, with max_bits = h * w * 3:
      reject when `len(message bits) > max_bits - 6`. */
  predicate ExceedsCapacityAsWritten(messageBits: nat, h: nat, w: nat) {
    messageBits > h * w * 3 - 6
  }

  /** The capacity check with the 48 bits of the two tokens subtracted, as the comment at
      line 27 intends ("- 6 for start and stop message token", six characters). */
  predicate ExceedsCapacity(messageBits: nat, h: nat, w: nat) {
    messageBits > h * w * 3 - 48
  }

  /** The corrected check accepts exactly the messages whose delimited stream fits in the
      image's h * w * 3 channel slots; only the padding may then be cut off. */
  lemma CapacityMeansFit(m: string, h: nat, w: nat)
    ensures !ExceedsCapacity(|MessageBits(m)|, h, w) <==> |Delimited(m)| <= h * w * 3
    ensures !ExceedsCapacity(|MessageBits(m)|, h, w) ==> |Frame(m)| <= h * w * 3 + 3
  {
  }
}
