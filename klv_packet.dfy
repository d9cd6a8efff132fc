/**
 * Packet assembly of klvgen.c: the constant tables of the UAS Local Data Set
 * (MISB ST 0601.2), the 78-byte layout makePacket writes, and makePacket
 * itself over the process-wide variables it reads and the caller's buffer it
 * fills in place.
 */
module KlvPacket {
  import opened ByteOrder
  import opened Checksum

  /** PACKET_LENGTH: the number of bytes makePacket writes and the sender sends. */
  const PacketLength: nat := 78

  /** The size of the buffer the program hands to makePacket (packetBuffer[79]). */
  const BufferSize: nat := 79

  /** The 16-byte Universal Key of the UAS Local Data Set. */
  const UasLdsKey: seq<bv8> := [0x06, 0x0E, 0x2B, 0x34, 0x02, 0x0B, 0x01, 0x01,
                                0x0E, 0x01, 0x03, 0x01, 0x01, 0x00, 0x00, 0x00]

  /** msgLength: the BER short-form length of everything after the key and this byte. */
  const MsgLength: bv8 := 0x3D

  /** ldsVersion: the value of the version item, 0x02 for ST 0601.2. */
  const LdsVersion: bv8 := 0x02

  // The {Tag, Length} pairs that precede each value.
  const TimestampTagLen: seq<bv8> := [0x02, 0x08]
  const MissionTagLen: seq<bv8> := [0x03, 0x0C]
  const PlatformTagLen: seq<bv8> := [0x0A, 0x0C]
  const LatitudeTagLen: seq<bv8> := [0x0D, 0x04]
  const LongitudeTagLen: seq<bv8> := [0x0E, 0x04]
  const AltitudeTagLen: seq<bv8> := [0x0F, 0x02]
  const VersionTagLen: seq<bv8> := [0x41, 0x01]
  const ChecksumTagLen: seq<bv8> := [0x01, 0x02]

  /**
   * The values makePacket copies, as they sit in memory: integers are their
   * bit patterns (the callers store latitude, longitude, altitude and the
   * timestamp already converted to network order), and the two text fields
   * are the char[13] arrays of the program.
   */
  datatype Fields = Fields(timestamp: bv64, missionId: seq<bv8>, platform: seq<bv8>,
                           latitude: bv32, longitude: bv32, altitude: bv16)
  {
    predicate Valid()
    {
      |missionId| == 13 && |platform| == 13
    }
  }

  /** The four bytes a memcpy of a 32-bit variable holding `v` copies. */
  function Image32(v: bv32, bigEndianHost: bool): (r: seq<bv8>)
    ensures |r| == 4
  {
    HostBytes(v as bv64, 4, bigEndianHost)
  }

  /** The two bytes a memcpy of a 16-bit variable holding `v` copies. */
  function Image16(v: bv16, bigEndianHost: bool): (r: seq<bv8>)
    ensures |r| == 2
  {
    HostBytes(v as bv64, 2, bigEndianHost)
  }

  /**
   * The bytes copied by the i-th memcpy of makePacket, for the 17 copies
   * made before the checksum is computed.
   */
  function Item(f: Fields, bigEndianHost: bool, i: nat): seq<bv8>
    requires f.Valid() && i < 17
  {
    match i
    case 0 => UasLdsKey
    case 1 => [MsgLength]
    case 2 => TimestampTagLen
    case 3 => HostBytes(f.timestamp, 8, bigEndianHost)
    case 4 => MissionTagLen
    case 5 => f.missionId[..12]
    case 6 => PlatformTagLen
    case 7 => f.platform[..12]
    case 8 => LatitudeTagLen
    case 9 => Image32(f.latitude, bigEndianHost)
    case 10 => LongitudeTagLen
    case 11 => Image32(f.longitude, bigEndianHost)
    case 12 => AltitudeTagLen
    case 13 => Image16(f.altitude, bigEndianHost)
    case 14 => VersionTagLen
    case 15 => [LdsVersion]
    case 16 => ChecksumTagLen
  }

  /** The first `n` items back to back. */
  function Prefix(f: Fields, bigEndianHost: bool, n: nat): seq<bv8>
    requires f.Valid() && n <= 17
  {
    if n == 0 then [] else Prefix(f, bigEndianHost, n - 1) + Item(f, bigEndianHost, n - 1)
  }

  /** Bytes 0..75 of the packet: all 17 items back to back, in the order they are copied. */
  function Body(f: Fields, bigEndianHost: bool): seq<bv8>
    requires f.Valid()
  {
    Prefix(f, bigEndianHost, 17)
  }

  /** The C type uint32_t, as the range of its values. */
  newtype uint32 = x: int | 0 <= x < 0x1_0000_0000

  /**
   * Bytes 76..77: the first two bytes of the memory image of the uint32_t
   * variable `checksum`. No byte-order conversion is applied to it.
   */
  function ChecksumBytes(checksum: uint32, bigEndianHost: bool): seq<bv8>
  {
    HostBytes(checksum as bv64, 4, bigEndianHost)[..2]
  }

  /** The 78 bytes makePacket leaves at the start of the buffer. */
  function Packet(f: Fields, bigEndianHost: bool): seq<bv8>
    requires f.Valid()
  {
    var body := Body(f, bigEndianHost);
    body + ChecksumBytes(ChecksumOf(body) as uint32, bigEndianHost)
  }

  /** Where one memcpy of makePacket writes: `size` bytes from `offset`. */
  datatype Region = Region(offset: nat, size: nat)

  /** The destinations of makePacket's 18 memcpys, in the order it makes them. */
  const Layout: seq<Region> := [
    Region(0, 16), Region(16, 1), Region(17, 2), Region(19, 8), Region(27, 2),
    Region(29, 12), Region(41, 2), Region(43, 12), Region(55, 2), Region(57, 4),
    Region(61, 2), Region(63, 4), Region(67, 2), Region(69, 2), Region(71, 2),
    Region(73, 1), Region(74, 2), Region(76, 2)]

  /**
   * The regions tile bytes 0..77 exactly, each starting where the previous
   * one ends; the set length counts every byte after itself; and the last
   * byte of the program's 79-byte buffer is never a destination.
   */
  lemma LayoutTiles()
    ensures |Layout| == 18 && Layout[0].offset == 0
    ensures forall i :: 0 <= i < |Layout| - 1 ==> Layout[i].offset + Layout[i].size == Layout[i + 1].offset
    ensures Layout[17].offset + Layout[17].size == PacketLength < BufferSize
    ensures MsgLength as int == PacketLength - (Layout[1].offset + Layout[1].size)
  {
  }

  /** Each item is as long as its region, and each region ends where the next begins. */
  lemma ItemFitsRegion(f: Fields, bigEndianHost: bool, i: nat)
    requires f.Valid() && i < 17
    ensures |Item(f, bigEndianHost, i)| == Layout[i].size
    ensures Layout[i].offset + Layout[i].size == Layout[i + 1].offset
  {
  }

  /** The first `n` items end where region `n` begins. */
  lemma {:induction false} PrefixLength(f: Fields, bigEndianHost: bool, n: nat)
    requires f.Valid() && n <= 17
    ensures |Prefix(f, bigEndianHost, n)| == Layout[n].offset
  {
    if n > 0 {
      PrefixLength(f, bigEndianHost, n - 1);
      ItemFitsRegion(f, bigEndianHost, n - 1);
    }
  }

  /** Taking a prefix of `a + b` no longer than `a` takes it from `a`. */
  lemma TakeFromLeft(a: seq<bv8>, b: seq<bv8>, k: nat)
    requires k <= |a|
    ensures (a + b)[..k] == a[..k]
  {
  }

  /** A slice inside a known prefix is a slice of that prefix. */
  lemma SliceOfPrefix(p: seq<bv8>, prefix: seq<bv8>, lo: nat, hi: nat)
    requires |prefix| <= |p| && p[..|prefix|] == prefix
    requires lo <= hi <= |prefix|
    ensures p[lo..hi] == prefix[lo..hi]
  {
    forall k | 0 <= k < hi - lo
      ensures p[lo..hi][k] == prefix[lo..hi][k]
    {
      assert p[lo + k] == p[..|prefix|][lo + k];
    }
  }

  /** A shorter run of items is a prefix of a longer one. */
  lemma {:induction false} PrefixGrows(f: Fields, bigEndianHost: bool, n: nat, m: nat)
    requires f.Valid() && n <= m <= 17
    ensures |Prefix(f, bigEndianHost, n)| <= |Prefix(f, bigEndianHost, m)|
    ensures Prefix(f, bigEndianHost, m)[..|Prefix(f, bigEndianHost, n)|] == Prefix(f, bigEndianHost, n)
    decreases m
  {
    if n < m {
      var shorter := Prefix(f, bigEndianHost, m - 1);
      var k := |Prefix(f, bigEndianHost, n)|;
      PrefixGrows(f, bigEndianHost, n, m - 1);
      TakeFromLeft(shorter, Item(f, bigEndianHost, m - 1), k);
    }
  }

  /** Item `i` occupies region `i` of the body. */
  lemma ItemInBody(f: Fields, bigEndianHost: bool, i: nat)
    requires f.Valid() && i < 17
    ensures |Item(f, bigEndianHost, i)| == Layout[i].size
    ensures Layout[i].offset + Layout[i].size <= |Body(f, bigEndianHost)|
    ensures Body(f, bigEndianHost)[Layout[i].offset .. Layout[i].offset + Layout[i].size] == Item(f, bigEndianHost, i)
  {
    var h := bigEndianHost;
    ItemFitsRegion(f, h, i);
    PrefixLength(f, h, i);
    PrefixLength(f, h, i + 1);
    PrefixLength(f, h, 17);
    PrefixGrows(f, h, i + 1, 17);
    var upTo := Prefix(f, h, i + 1);
    assert upTo == Prefix(f, h, i) + Item(f, h, i);
    assert Body(f, h)[Layout[i].offset .. Layout[i + 1].offset] == upTo[Layout[i].offset..];
  }

  /**
   * The packet is the 76-byte body followed by the two checksum bytes of that
   * body, so bytes 76..77 are not part of their own checksum.
   */
  lemma PacketShape(f: Fields, bigEndianHost: bool)
    requires f.Valid()
    ensures |Body(f, bigEndianHost)| == 76
    ensures |Packet(f, bigEndianHost)| == PacketLength
    ensures Packet(f, bigEndianHost)[..76] == Body(f, bigEndianHost)
    ensures Packet(f, bigEndianHost)[76..] == ChecksumBytes(ChecksumOf(Body(f, bigEndianHost)) as uint32, bigEndianHost)
  {
    PrefixLength(f, bigEndianHost, 17);
  }

  /**
   * The checksum bytes by host, for any value makeChecksum can return: a
   * little-endian host sends the low byte first, the reverse of network
   * order; a big-endian host sends the upper half of the variable, which is
   * always zero.
   */
  lemma ChecksumBytesByHost(checksum: uint32)
    requires checksum < 0x1_0000
    ensures ChecksumBytes(checksum, false) == [ByteAt(checksum as bv64, 0), ByteAt(checksum as bv64, 1)]
    ensures ChecksumBytes(checksum, false) == [NetworkBytes(checksum as bv64, 2)[1], NetworkBytes(checksum as bv64, 2)[0]]
    ensures ChecksumBytes(checksum, true) == [0, 0]
  {
    var v := checksum as bv64;
    HostBytesAt(v, 4, false, 0);
    HostBytesAt(v, 4, false, 1);
    HostBytesAt(v, 2, true, 0);
    HostBytesAt(v, 2, true, 1);
    HostBytesAt(v, 4, true, 0);
    HostBytesAt(v, 4, true, 1);
    SixteenBitValue(checksum as int);
  }

  /** Item `i` has the size of region `i` and sits at its offset in the packet. */
  lemma PacketLayout(f: Fields, bigEndianHost: bool, i: nat)
    requires f.Valid() && i < 17
    ensures |Item(f, bigEndianHost, i)| == Layout[i].size
    ensures Layout[i].offset + Layout[i].size <= 76
    ensures |Packet(f, bigEndianHost)| == PacketLength
    ensures Packet(f, bigEndianHost)[Layout[i].offset .. Layout[i].offset + Layout[i].size] == Item(f, bigEndianHost, i)
  {
    PacketShape(f, bigEndianHost);
    ItemInBody(f, bigEndianHost, i);
    SliceOfPrefix(Packet(f, bigEndianHost), Body(f, bigEndianHost), Layout[i].offset, Layout[i].offset + Layout[i].size);
  }

  /** The constant bytes of every packet: the key, the set length, each tag/length pair and the version. */
  lemma PacketConstants(f: Fields, bigEndianHost: bool)
    requires f.Valid()
    ensures var p := Packet(f, bigEndianHost);
      |p| == PacketLength &&
      p[0..16] == UasLdsKey && p[16] == MsgLength &&
      p[17..19] == TimestampTagLen && p[27..29] == MissionTagLen &&
      p[41..43] == PlatformTagLen && p[55..57] == LatitudeTagLen &&
      p[61..63] == LongitudeTagLen && p[67..69] == AltitudeTagLen &&
      p[71..73] == VersionTagLen && p[73] == LdsVersion && p[74..76] == ChecksumTagLen
  {
    var p := Packet(f, bigEndianHost);
    PacketLayout(f, bigEndianHost, 0);
    PacketLayout(f, bigEndianHost, 1);
    assert p[16] == p[16..17][0];
    PacketLayout(f, bigEndianHost, 2);
    PacketLayout(f, bigEndianHost, 4);
    PacketLayout(f, bigEndianHost, 6);
    PacketLayout(f, bigEndianHost, 8);
    PacketLayout(f, bigEndianHost, 10);
    PacketLayout(f, bigEndianHost, 12);
    PacketLayout(f, bigEndianHost, 14);
    PacketLayout(f, bigEndianHost, 15);
    assert p[73] == p[73..74][0];
    PacketLayout(f, bigEndianHost, 16);
  }

  /**
   * Every item's length byte counts exactly the bytes of the value copied
   * after it: the second byte of each tag/length region (even i from 2 to
   * 16) is the size of the region that follows, the checksum's included.
   */
  lemma LengthBytesMatchValues(f: Fields, bigEndianHost: bool)
    requires f.Valid()
    ensures |Packet(f, bigEndianHost)| == PacketLength
    ensures forall i :: 2 <= i < 17 && i % 2 == 0 ==>
      Packet(f, bigEndianHost)[Layout[i].offset + 1] as int == Layout[i + 1].size
  {
    var p := Packet(f, bigEndianHost);
    PacketConstants(f, bigEndianHost);
    assert p[18] == p[17..19][1];
    assert p[28] == p[27..29][1];
    assert p[42] == p[41..43][1];
    assert p[56] == p[55..57][1];
    assert p[62] == p[61..63][1];
    assert p[68] == p[67..69][1];
    assert p[72] == p[71..73][1];
    assert p[75] == p[74..76][1];
  }

  /**
   * The field values sit verbatim in their slots: the memory images of the
   * numeric variables, and the first 12 bytes of each text array (its
   * 13th byte, the terminator slot, is not sent).
   */
  lemma PacketFields(f: Fields, bigEndianHost: bool)
    requires f.Valid()
    ensures var p := Packet(f, bigEndianHost);
      |p| == PacketLength &&
      p[19..27] == HostBytes(f.timestamp, 8, bigEndianHost) &&
      p[29..41] == f.missionId[..12] && p[43..55] == f.platform[..12] &&
      p[57..61] == Image32(f.latitude, bigEndianHost) &&
      p[63..67] == Image32(f.longitude, bigEndianHost) &&
      p[69..71] == Image16(f.altitude, bigEndianHost)
  {
    PacketLayout(f, bigEndianHost, 3);
    PacketLayout(f, bigEndianHost, 5);
    PacketLayout(f, bigEndianHost, 7);
    PacketLayout(f, bigEndianHost, 9);
    PacketLayout(f, bigEndianHost, 11);
    PacketLayout(f, bigEndianHost, 13);
  }

  /**
   * A timestamp stored through htonll, as the sending loop stores it,
   * reaches the packet in network byte order on either kind of host.
   */
  lemma TimestampInNetworkOrder(f: Fields, now: bv64, bigEndianHost: bool)
    requires f.Valid()
    ensures |Packet(f.(timestamp := Htonll(now, bigEndianHost)), bigEndianHost)| == PacketLength
    ensures Packet(f.(timestamp := Htonll(now, bigEndianHost)), bigEndianHost)[19..27] == NetworkBytes(now, 8)
  {
    PacketFields(f.(timestamp := Htonll(now, bigEndianHost)), bigEndianHost);
    HtonllIsNetworkOrder(now, bigEndianHost);
  }

  /** Only item 3, the timestamp value, depends on the timestamp. */
  lemma OtherItemsIgnoreTimestamp(f: Fields, t: bv64, bigEndianHost: bool, i: nat)
    requires f.Valid() && i < 17 && i != 3
    ensures Item(f.(timestamp := t), bigEndianHost, i) == Item(f, bigEndianHost, i)
  {
  }

  /** Outside bytes 19..26, the first `n` items do not depend on the timestamp. */
  lemma {:induction false} PrefixIgnoresTimestamp(f: Fields, t: bv64, bigEndianHost: bool, n: nat)
    requires f.Valid() && n <= 17
    ensures |Prefix(f.(timestamp := t), bigEndianHost, n)| == |Prefix(f, bigEndianHost, n)|
    ensures forall j :: 0 <= j < |Prefix(f, bigEndianHost, n)| && !(19 <= j < 27) ==>
      Prefix(f.(timestamp := t), bigEndianHost, n)[j] == Prefix(f, bigEndianHost, n)[j]
  {
    if n > 0 {
      var g := f.(timestamp := t);
      PrefixIgnoresTimestamp(f, t, bigEndianHost, n - 1);
      PrefixLength(f, bigEndianHost, n - 1);
      if n - 1 != 3 {
        OtherItemsIgnoreTimestamp(f, t, bigEndianHost, n - 1);
      } else {
        ItemFitsRegion(f, bigEndianHost, 3);
        ItemFitsRegion(g, bigEndianHost, 3);
      }
    }
  }

  /**
   * Two packets whose fields differ only in the timestamp agree on every
   * byte of bytes 0..75 outside the timestamp value at 19..26, so only that
   * value and the checksum would need rewriting between packets.
   */
  lemma OnlyTimestampBytesChange(f: Fields, t: bv64, bigEndianHost: bool)
    requires f.Valid()
    ensures |Packet(f.(timestamp := t), bigEndianHost)| == |Packet(f, bigEndianHost)| == PacketLength
    ensures forall j :: 0 <= j < 76 && !(19 <= j < 27) ==>
      Packet(f.(timestamp := t), bigEndianHost)[j] == Packet(f, bigEndianHost)[j]
  {
    var g := f.(timestamp := t);
    PacketShape(f, bigEndianHost);
    PacketShape(g, bigEndianHost);
    PrefixIgnoresTimestamp(f, t, bigEndianHost, 17);
    forall j | 0 <= j < 76 && !(19 <= j < 27)
      ensures Packet(g, bigEndianHost)[j] == Packet(f, bigEndianHost)[j]
    {
      assert Packet(g, bigEndianHost)[j] == Body(g, bigEndianHost)[j];
      assert Packet(f, bigEndianHost)[j] == Body(f, bigEndianHost)[j];
    }
  }

  /** A bounded copy of memcpy: `src` lands at `dst[off..]`, and nothing else changes. */
  method Memcpy(dst: array<bv8>, off: nat, src: seq<bv8>)
    requires off + |src| <= dst.Length
    modifies dst
    ensures dst[..off] == old(dst[..off])
    ensures dst[..off + |src|] == old(dst[..off]) + src
    ensures forall j :: off + |src| <= j < dst.Length ==> dst[j] == old(dst[j])
  {
    forall j | off <= j < off + |src| {
      dst[j] := src[j - off];
    }
  }

  /**
   * The process-wide variables of klvgen.c that makePacket reads, and the
   * checksum variable it sets. The host's byte order is fixed for the run.
   */
  class Generator {
    const bigEndianHost: bool
    var timestamp: bv64
    var missionId: seq<bv8>
    var platform: seq<bv8>
    var latitude: bv32
    var longitude: bv32
    var altitude: bv16
    var checksum: uint32

    ghost predicate Valid()
      reads this
    {
      Current().Valid()
    }

    /** The values makePacket copies. */
    function Current(): Fields
      reads this
    {
      Fields(timestamp, missionId, platform, latitude, longitude, altitude)
    }

    /** The variables start zeroed, as C static storage does. */
    constructor (bigEndianHost: bool)
      ensures Valid()
      ensures this.bigEndianHost == bigEndianHost
      ensures timestamp == 0 && latitude == 0 && longitude == 0 && altitude == 0 && checksum == 0
      ensures missionId == seq(13, _ => 0) && platform == seq(13, _ => 0)
    {
      this.bigEndianHost := bigEndianHost;
      timestamp, latitude, longitude, altitude, checksum := 0, 0, 0, 0, 0;
      missionId := seq(13, _ => 0);
      platform := seq(13, _ => 0);
    }

    /** The memcpys of makePacket that write the key, the set length and the timestamp item: bytes 0..26. */
    method CopyHeader(buff: array<bv8>)
      requires Valid()
      requires PacketLength <= buff.Length
      modifies buff
      ensures buff[..27] == Prefix(Current(), bigEndianHost, 4)
      ensures forall j :: 27 <= j < buff.Length ==> buff[j] == old(buff[j])
    {
      ghost var f := Current();
      Memcpy(buff, 0, UasLdsKey);
      assert Prefix(f, bigEndianHost, 1) == [] + UasLdsKey;
      assert buff[..16] == Prefix(f, bigEndianHost, 1);
      Memcpy(buff, 16, [MsgLength]);
      assert buff[..17] == Prefix(f, bigEndianHost, 2);
      Memcpy(buff, 17, TimestampTagLen);
      assert buff[..19] == Prefix(f, bigEndianHost, 3);
      Memcpy(buff, 19, HostBytes(timestamp, 8, bigEndianHost));
      assert buff[..27] == Prefix(f, bigEndianHost, 4);
    }

    /** The memcpys of makePacket that write the mission identifier and platform items: bytes 27..54. */
    method CopyIdentifiers(buff: array<bv8>)
      requires Valid()
      requires PacketLength <= buff.Length
      requires buff[..27] == Prefix(Current(), bigEndianHost, 4)
      modifies buff
      ensures buff[..55] == Prefix(Current(), bigEndianHost, 8)
      ensures forall j :: 55 <= j < buff.Length ==> buff[j] == old(buff[j])
    {
      ghost var f := Current();
      Memcpy(buff, 27, MissionTagLen);
      assert buff[..29] == Prefix(f, bigEndianHost, 5);
      Memcpy(buff, 29, missionId[..12]);
      assert buff[..41] == Prefix(f, bigEndianHost, 6);
      Memcpy(buff, 41, PlatformTagLen);
      assert buff[..43] == Prefix(f, bigEndianHost, 7);
      Memcpy(buff, 43, platform[..12]);
      assert buff[..55] == Prefix(f, bigEndianHost, 8);
    }

    /** The memcpys of makePacket that write the latitude and longitude items: bytes 55..66. */
    method CopyPosition(buff: array<bv8>)
      requires Valid()
      requires PacketLength <= buff.Length
      requires buff[..55] == Prefix(Current(), bigEndianHost, 8)
      modifies buff
      ensures buff[..67] == Prefix(Current(), bigEndianHost, 12)
      ensures forall j :: 67 <= j < buff.Length ==> buff[j] == old(buff[j])
    {
      ghost var f := Current();
      Memcpy(buff, 55, LatitudeTagLen);
      assert buff[..57] == Prefix(f, bigEndianHost, 9);
      Memcpy(buff, 57, Image32(latitude, bigEndianHost));
      assert buff[..61] == Prefix(f, bigEndianHost, 10);
      Memcpy(buff, 61, LongitudeTagLen);
      assert buff[..63] == Prefix(f, bigEndianHost, 11);
      Memcpy(buff, 63, Image32(longitude, bigEndianHost));
      assert buff[..67] == Prefix(f, bigEndianHost, 12);
    }

    /** The memcpys of makePacket that write the altitude and version items and the checksum tag and length: bytes 67..75. */
    method CopyTrailer(buff: array<bv8>)
      requires Valid()
      requires PacketLength <= buff.Length
      requires buff[..67] == Prefix(Current(), bigEndianHost, 12)
      modifies buff
      ensures buff[..76] == Prefix(Current(), bigEndianHost, 17)
      ensures forall j :: 76 <= j < buff.Length ==> buff[j] == old(buff[j])
    {
      ghost var f := Current();
      Memcpy(buff, 67, AltitudeTagLen);
      assert buff[..69] == Prefix(f, bigEndianHost, 13);
      Memcpy(buff, 69, Image16(altitude, bigEndianHost));
      assert buff[..71] == Prefix(f, bigEndianHost, 14);
      Memcpy(buff, 71, VersionTagLen);
      assert buff[..73] == Prefix(f, bigEndianHost, 15);
      Memcpy(buff, 73, [LdsVersion]);
      assert buff[..74] == Prefix(f, bigEndianHost, 16);
      Memcpy(buff, 74, ChecksumTagLen);
      assert buff[..76] == Prefix(f, bigEndianHost, 17);
    }

    /**
     * makePacket(buff): copies every item to its fixed offset, then computes
     * the checksum over bytes 0..75, keeps it in `checksum`, and copies that
     * variable's first two bytes to 76..77.
     */
    method MakePacket(buff: array<bv8>)
      requires Valid()
      requires PacketLength <= buff.Length
      modifies buff, this`checksum
      ensures Valid()
      ensures buff[..PacketLength] == Packet(old(Current()), bigEndianHost)
      ensures checksum as int == ChecksumOf(buff[..76])
      ensures forall j :: PacketLength <= j < buff.Length ==> buff[j] == old(buff[j])
    {
      ghost var f := Current();
      CopyHeader(buff);
      CopyIdentifiers(buff);
      CopyPosition(buff);
      CopyTrailer(buff);
      assert buff[..76] == Body(f, bigEndianHost);
      var bcc := MakeChecksum(buff, 76);
      checksum := bcc as uint32;
      Memcpy(buff, 76, HostBytes(checksum as bv64, 4, bigEndianHost)[..2]);
    }
  }
}
