/**
 * Host byte order and the 64-bit host-to-network conversion of klvgen.c.
 *
 * The host's endianness is a parameter (`bigEndianHost`), not something the
 * model discovers at run time: `SysIsBigEndian` shows that the union test in
 * the source recovers exactly that parameter.
 */
module ByteOrder {

  /** The byte of significance `k` of `v` (k = 0 is the least significant byte). */
  function ByteAt(v: bv64, k: nat): bv8
    requires k < 8
  {
    match k
    case 0 => (v & 0xFF) as bv8
    case 1 => ((v >> 8) & 0xFF) as bv8
    case 2 => ((v >> 16) & 0xFF) as bv8
    case 3 => ((v >> 24) & 0xFF) as bv8
    case 4 => ((v >> 32) & 0xFF) as bv8
    case 5 => ((v >> 40) & 0xFF) as bv8
    case 6 => ((v >> 48) & 0xFF) as bv8
    case 7 => ((v >> 56) & 0xFF) as bv8
  }

  /** The low `n` bytes of `v`, least significant first. */
  function LittleEndianBytes(v: bv64, n: nat): (r: seq<bv8>)
    requires n <= 8
    ensures |r| == n
  {
    if n == 0 then [] else LittleEndianBytes(v, n - 1) + [ByteAt(v, n - 1)]
  }

  /** The low `n` bytes of `v`, most significant first. */
  function BigEndianBytes(v: bv64, n: nat): (r: seq<bv8>)
    requires n <= 8
    ensures |r| == n
  {
    if n == 0 then [] else [ByteAt(v, n - 1)] + BigEndianBytes(v, n - 1)
  }

  /**
   * The `n` bytes that a memcpy of an n-byte unsigned integer holding `v`
   * copies, in memory order, on a host of the given endianness.
   */
  function HostBytes(v: bv64, n: nat, bigEndianHost: bool): (r: seq<bv8>)
    requires n <= 8
    ensures |r| == n
  {
    if bigEndianHost then BigEndianBytes(v, n) else LittleEndianBytes(v, n)
  }

  lemma {:induction false} LittleEndianBytesAt(v: bv64, n: nat, i: nat)
    requires i < n <= 8
    ensures LittleEndianBytes(v, n)[i] == ByteAt(v, i)
  {
    if i < n - 1 {
      LittleEndianBytesAt(v, n - 1, i);
    }
  }

  lemma {:induction false} BigEndianBytesAt(v: bv64, n: nat, i: nat)
    requires i < n <= 8
    ensures BigEndianBytes(v, n)[i] == ByteAt(v, n - 1 - i)
  {
    if 0 < i {
      BigEndianBytesAt(v, n - 1, i - 1);
    }
  }

  /**
   * Byte i of the memory image is the byte of significance i on a
   * little-endian host and of significance n - 1 - i on a big-endian one.
   */
  lemma HostBytesAt(v: bv64, n: nat, bigEndianHost: bool, i: nat)
    requires i < n <= 8
    ensures HostBytes(v, n, bigEndianHost)[i] == ByteAt(v, if bigEndianHost then n - 1 - i else i)
  {
    if bigEndianHost {
      BigEndianBytesAt(v, n, i);
    } else {
      LittleEndianBytesAt(v, n, i);
    }
  }

  /** The network (big-endian) byte sequence of the low `n` bytes of `v`. */
  function NetworkBytes(v: bv64, n: nat): seq<bv8>
    requires n <= 8
  {
    HostBytes(v, n, true)
  }

  /**
   * sysIsBigEndian: stores 0x01020304 in a 32-bit integer and looks at the
   * first byte of its memory image; that byte is 0x01 exactly on a
   * big-endian host.
   */
  function SysIsBigEndian(bigEndianHost: bool): (r: bool)
    ensures r == bigEndianHost
  {
    var image := HostBytes(0x01020304, 4, bigEndianHost);
    HostBytesAt(0x01020304, 4, bigEndianHost, 0);
    image[0] == 0x01
  }

  /**
   * htonll: on a big-endian host the value is returned unchanged; otherwise
   * its eight bytes are reversed with the masks and shifts of the source.
   * Either way, the memory image of the result is the network-order image of
   * the argument.
   */
  function Htonll(num: bv64, bigEndianHost: bool): (r: bv64)
    ensures bigEndianHost ==> r == num
    ensures !bigEndianHost ==> forall k :: 0 <= k < 8 ==> ByteAt(r, k) == ByteAt(num, 7 - k)
  {
    if SysIsBigEndian(bigEndianHost) then num
    else
      var r := ((num & 0xFF) << 56) | ((num & 0xFF00000000000000) >> 56) |
               ((num & 0xFF00) << 40) | ((num & 0x00FF000000000000) >> 40) |
               ((num & 0xFF0000) << 24) | ((num & 0x0000FF0000000000) >> 24) |
               ((num & 0xFF000000) << 8) | ((num & 0x000000FF00000000) >> 8);
      SwappedBytes(num, r);
      r
  }

  /** The byte-by-byte effect of the mask-and-shift expression of htonll. */
  lemma SwappedBytes(num: bv64, r: bv64)
    requires r == ((num & 0xFF) << 56) | ((num & 0xFF00000000000000) >> 56) |
                  ((num & 0xFF00) << 40) | ((num & 0x00FF000000000000) >> 40) |
                  ((num & 0xFF0000) << 24) | ((num & 0x0000FF0000000000) >> 24) |
                  ((num & 0xFF000000) << 8) | ((num & 0x000000FF00000000) >> 8)
    ensures forall k :: 0 <= k < 8 ==> ByteAt(r, k) == ByteAt(num, 7 - k)
  {
  }

  /**
   * What the callers rely on: whatever the host, a memcpy of htonll(v)
   * copies the eight bytes of v in network order.
   */
  lemma HtonllIsNetworkOrder(v: bv64, bigEndianHost: bool)
    ensures HostBytes(Htonll(v, bigEndianHost), 8, bigEndianHost) == NetworkBytes(v, 8)
  {
    if !bigEndianHost {
      var r := Htonll(v, bigEndianHost);
      forall i | 0 <= i < 8
        ensures HostBytes(r, 8, false)[i] == NetworkBytes(v, 8)[i]
      {
        HostBytesAt(r, 8, false, i);
        HostBytesAt(v, 8, true, i);
      }
    }
  }

  /** htonll undoes itself: applying it twice gives back the argument. */
  lemma HtonllInvolution(v: bv64, bigEndianHost: bool)
    ensures Htonll(Htonll(v, bigEndianHost), bigEndianHost) == v
  {
  }

  /** A value below 2^16 has zero bytes above significance 1. */
  lemma SixteenBitValue(c: int)
    requires 0 <= c < 0x1_0000
    ensures ByteAt(c as bv64, 2) == 0 && ByteAt(c as bv64, 3) == 0
  {
    assert c as bv64 < 0x1_0000;
  }
}
