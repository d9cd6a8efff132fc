/**
 * The 16-bit running checksum of klvgen.c (makeChecksum), after the checksum
 * of the UAS Local Data Set: a sum of the buffer's bytes in which even
 * (0-based) positions weigh as the high byte of a 16-bit word and odd
 * positions as the low byte, wrapping at 2^16.
 */
module Checksum {

  /**
   * The value makeChecksum adds for byte b at index i: b shifted left by
   * `8 * ((i + 1) % 2)`, that is b * 256 when i + 1 is odd (i even), b
   * otherwise.
   */
  function Term(b: bv8, i: nat): int
  {
    if (i + 1) % 2 == 1 then (b as int) * 256 else b as int
  }

  /** Sum over every index i of Term(s[i], i), in unbounded integers. */
  function WeightedSum(s: seq<bv8>): int
  {
    if s == [] then 0
    else WeightedSum(s[..|s| - 1]) + Term(s[|s| - 1], |s| - 1)
  }

  /** The checksum value: the weighted sum reduced to 16 bits. */
  function ChecksumOf(s: seq<bv8>): int
  {
    WeightedSum(s) % 0x1_0000
  }

  /**
   * The checksum as the standard describes it: the sum of the buffer read as
   * consecutive big-endian 16-bit words (a trailing odd byte is a high byte).
   */
  function WordSum(s: seq<bv8>): int
    decreases |s|
  {
    if |s| == 0 then 0
    else if |s| == 1 then (s[0] as int) * 256
    else (s[0] as int) * 256 + (s[1] as int) + WordSum(s[2..])
  }

  /** The term makeChecksum adds for byte b at index i: b shifted as the source shifts it. */
  lemma ShiftedByte(b: bv8, i: nat)
    ensures ((b as bv16) << (8 * ((i + 1) % 2))) as int == Term(b, i)
  {
  }

  /**
   * makeChecksum(buff, len): walks buff[0..len-1] once, adding each byte,
   * shifted left by 8 at even indices, into a uint16_t accumulator whose
   * wrap-around is written out as `% 0x1_0000`. It only reads the array, and
   * only its first len bytes.
   */
  method MakeChecksum(buff: array<bv8>, len: nat) returns (bcc: nat)
    requires len <= buff.Length
    requires len < 0x1_0000  // len is an unsigned short
    ensures bcc == ChecksumOf(buff[..len])
    ensures bcc < 0x1_0000
    ensures len == 0 ==> bcc == 0
  {
    bcc := 0;
    var i: nat := 0;
    while i < len
      invariant i <= len
      invariant bcc == WeightedSum(buff[..i]) % 0x1_0000
    {
      var shifted := ((buff[i] as bv16) << (8 * ((i + 1) % 2))) as int;
      ShiftedByte(buff[i], i);
      ModAddLeft(WeightedSum(buff[..i]), shifted);
      bcc := (bcc + shifted) % 0x1_0000;
      assert buff[..i + 1][..i] == buff[..i];
      i := i + 1;
    }
  }

  /** Splitting the buffer at an even position splits the weighted sum. */
  lemma {:induction false} WeightedSumAppend(a: seq<bv8>, b: seq<bv8>)
    requires |a| % 2 == 0
    ensures WeightedSum(a + b) == WeightedSum(a) + WeightedSum(b)
  {
    if b == [] {
      assert a + b == a;
    } else {
      var b' := b[..|b| - 1];
      assert (a + b)[..|a + b| - 1] == a + b';
      assert Term(b[|b| - 1], |a + b| - 1) == Term(b[|b| - 1], |b| - 1);
      WeightedSumAppend(a, b');
    }
  }

  /**
   * makeChecksum's per-index weighting is the standard's sum of big-endian
   * 16-bit words.
   */
  lemma {:induction false} WeightedSumIsWordSum(s: seq<bv8>)
    ensures WeightedSum(s) == WordSum(s)
    decreases |s|
  {
    if |s| == 0 {
    } else if |s| == 1 {
      assert s[..0] == [];
    } else {
      var head := s[..2];
      assert head[..1][..0] == [];
      assert head[..1] == [s[0]];
      assert WeightedSum(head[..1]) == (s[0] as int) * 256;
      assert WeightedSum(head) == (s[0] as int) * 256 + (s[1] as int);
      assert s == head + s[2..];
      WeightedSumAppend(head, s[2..]);
      WeightedSumIsWordSum(s[2..]);
    }
  }

  /** Replacing byte i replaces its term in the weighted sum. */
  lemma {:induction false} WeightedSumUpdate(s: seq<bv8>, i: nat, b: bv8)
    requires i < |s|
    ensures WeightedSum(s[i := b]) == WeightedSum(s) + Term(b, i) - Term(s[i], i)
  {
    var t := s[i := b];
    if i == |s| - 1 {
      assert t[..|t| - 1] == s[..|s| - 1];
    } else {
      assert t[..|t| - 1] == s[..|s| - 1][i := b];
      WeightedSumUpdate(s[..|s| - 1], i, b);
    }
  }

  /**
   * Changing any single byte of the covered range always changes the
   * checksum: a difference of one byte, weighted by 1 or 256, is never a
   * multiple of 2^16.
   */
  lemma ChecksumDetectsByteChange(s: seq<bv8>, i: nat, b: bv8)
    requires i < |s|
    requires b != s[i]
    ensures ChecksumOf(s[i := b]) != ChecksumOf(s)
  {
    WeightedSumUpdate(s, i, b);
    var d := Term(b, i) - Term(s[i], i);
    TermsDiffer(b, s[i], i);
    ModShiftDiffers(WeightedSum(s), d);
  }

  /** Two different bytes give terms at the same index that differ by less than 2^16. */
  lemma TermsDiffer(b: bv8, c: bv8, i: nat)
    requires b != c
    ensures Term(b, i) != Term(c, i)
    ensures -0x1_0000 < Term(b, i) - Term(c, i) < 0x1_0000
  {
    assert b as int != c as int;
  }

  /** Reducing the left operand first does not change a sum modulo 2^16. */
  lemma ModAddLeft(w: int, t: int)
    ensures (w % 0x1_0000 + t) % 0x1_0000 == (w + t) % 0x1_0000
  {
  }

  /** A non-zero shift smaller than 2^16 in magnitude changes the residue. */
  lemma ModShiftDiffers(x: int, d: int)
    requires d != 0 && -0x1_0000 < d < 0x1_0000
    ensures (x + d) % 0x1_0000 != x % 0x1_0000
  {
  }
}
