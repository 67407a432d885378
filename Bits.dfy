/** Bit strings as the codec writes them: Python's `format(n, '08b')`, `int(s, 2)`,
    and the least-significant-bit read and write applied to one 8-bit channel.
    A bit string is a `seq<bool>`, `true` standing for the digit '1', most significant bit first. */
module Bits {

  /** One 8-bit colour channel value, as OpenCV stores it. */
  type Byte = x: int | 0 <= x < 256

  function Pow2(n: nat): (r: nat)
    ensures r >= 1
  {
    if n == 0 then 1 else 2 * Pow2(n - 1)
  }

  lemma {:induction false} Pow2Monotone(i: nat, j: nat)
    requires i <= j
    ensures Pow2(i) <= Pow2(j)
  {
    if i < j {
      Pow2Monotone(i, j - 1);
    }
  }

  /** The unsigned number a bit string denotes, read most significant bit first: `int(s, 2)`. */
  function Value(s: seq<bool>): (r: nat)
    ensures r < Pow2(|s|)
  {
    if s == [] then 0 else 2 * Value(s[..|s| - 1]) + (if s[|s| - 1] then 1 else 0)
  }

  /** Appending one digit doubles the value and adds the digit. */
  lemma ValueSnoc(s: seq<bool>, b: bool)
    ensures Value(s + [b]) == 2 * Value(s) + (if b then 1 else 0)
  {
    assert (s + [b])[..|s|] == s;
  }

  /** A bit string starting with a 0 digit denotes less than half the range of its width. */
  lemma {:induction false} ValueLeadingZero(s: seq<bool>)
    requires |s| >= 1 && !s[0]
    ensures Value(s) < Pow2(|s| - 1)
  {
    if |s| > 1 {
      ValueLeadingZero(s[..|s| - 1]);
    }
  }

  /** Hence a numeral of width 8 or more whose value needs all its digits starts with a 1. */
  lemma LeadingOne(s: seq<bool>)
    requires |s| >= 8
    requires |s| == 8 ==> Value(s) >= Pow2(|s| - 1)
    requires |s| > 8 ==> s[0]
    ensures s[0]
  {
    if !s[0] {
      ValueLeadingZero(s);
    }
  }

  /** Two bit strings of the same width with the same value are the same string. */
  lemma {:induction false} ValueInjective(s: seq<bool>, t: seq<bool>)
    requires |s| == |t| && Value(s) == Value(t)
    ensures s == t
  {
    if s != [] {
      ValueInjective(s[..|s| - 1], t[..|t| - 1]);
      assert s == s[..|s| - 1] + [s[|s| - 1]];
      assert t == t[..|t| - 1] + [t[|t| - 1]];
    }
  }

  /** The k-digit binary numeral of n, zero-padded on the left (n below 2^k). */
  function FixedWidth(n: nat, k: nat): (r: seq<bool>)
    ensures |r| == k
    ensures n < Pow2(k) ==> Value(r) == n
  {
    if k == 0 then []
    else
      var r := FixedWidth(n / 2, k - 1) + [n % 2 == 1];
      ValueSnoc(FixedWidth(n / 2, k - 1), n % 2 == 1);
      r
  }

  /** Python's `format(n, '08b')`: the binary numeral of n, zero-padded to at least 8 digits.
      A value of 256 or more keeps all its digits, so it is longer than 8. */
  function Format08b(n: nat): (r: seq<bool>)
    ensures Value(r) == n
    ensures |r| >= 8
    ensures |r| > 8 ==> r[0]
    ensures |r| == 8 <==> n < 256
  {
    if n < 256 then
      assert Pow2(8) == 256;
      FixedWidth(n, 8)
    else
      var hi := Format08b(n / 2);
      ValueSnoc(hi, n % 2 == 1);
      assert Pow2(7) == 128;
      assert |hi| == 8 ==> Value(hi) >= Pow2(|hi| - 1);
      LeadingOne(hi);
      hi + [n % 2 == 1]
  }

  /** The least significant bit of a channel, `format(v, '08b')[-1] == '1'`; `LsbIsLastDigit`
      shows the two agree. */
  function Lsb(v: Byte): bool {
    v % 2 == 1
  }

  /** The channel with its lowest bit replaced by `bit`, `int(format(v, '08b')[:-1] + bit, 2)`;
      `SetLsbReplacesLastDigit` shows the two agree. */
  function SetLsb(v: Byte, bit: bool): (r: Byte)
    ensures r / 2 == v / 2
    ensures r % 2 == 1 <==> bit
  {
    v - v % 2 + (if bit then 1 else 0)
  }

  /** Reading the last digit of the numeral `format(v, '08b')` reads the channel's lowest bit. */
  lemma LsbIsLastDigit(v: Byte)
    ensures var s := Format08b(v); s[|s| - 1] == Lsb(v)
  {
    var s := Format08b(v);
    assert s == s[..|s| - 1] + [s[|s| - 1]];
    ValueSnoc(s[..|s| - 1], s[|s| - 1]);
  }

  /** Replacing the last digit of `format(v, '08b')` by `bit` and reading the numeral back keeps
      the seven upper bits and sets the lowest bit to `bit`. */
  lemma SetLsbReplacesLastDigit(v: Byte, bit: bool)
    ensures var s := Format08b(v); Value(s[..|s| - 1] + [bit]) == SetLsb(v, bit)
  {
    var s := Format08b(v);
    var upper := s[..|s| - 1];
    assert s == upper + [s[|s| - 1]];
    ValueSnoc(upper, s[|s| - 1]);
    ValueSnoc(upper, bit);
  }
}
