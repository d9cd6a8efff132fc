# klvgen packet assembly in Dafny

This project models the packet-assembly core of `klvgen.c`, a generator of
KLV metadata packets in the UAS Local Data Set of MISB ST 0601.2. Every
packet is a fixed 78-byte frame:

- a 16-byte Universal Key and the set length 0x3D;
- eight tag/length/value items (timestamp, mission identifier, platform,
  latitude, longitude, altitude, version, checksum) at fixed offsets.

Three source pieces are modelled:

- **`makeChecksum`** (module `Checksum`). The 16-bit running checksum is a
  method with a `while` loop over a byte array. It is proved equal to a
  weighted sum specification: even positions count as high bytes, odd
  positions as low bytes, and the sum is reduced modulo 2^16. That sum is
  then shown equal to the standard's sum of big-endian 16-bit words, and a
  change to any single byte is shown to change the checksum.
- **`sysIsBigEndian` and `htonll`** (module `ByteOrder`). The host's byte
  order is a `bool` parameter. `HostBytes(v, n, bigEndianHost)` is the
  memory image of an n-byte integer, that is, what a `memcpy` of it copies.
  `htonll` keeps the source's mask-and-shift expression. It is proved to
  be the identity on a big-endian host, a byte reversal on a little-endian
  host, an involution, and to produce the network-order image on either.
- **`makePacket`** (module `KlvPacket`). The process-wide variables it
  reads and the `checksum` variable it sets are the fields of class
  `Generator`. `MakePacket` writes a caller's `array<bv8>` in place:
  - The first 17 `memcpy` calls are made at the source's offsets, grouped
    into four helper methods: `CopyHeader`, `CopyIdentifiers`,
    `CopyPosition` and `CopyTrailer`.
  - `MakePacket` then computes the checksum of bytes 0..75 and makes the
    18th copy itself: the first two bytes of the 32-bit `checksum` variable
    go to bytes 76..77.

  Its contract ties the buffer to the specification function
  `Packet(fields, bigEndianHost)`. The lemmas then state the layout
  (`Layout`):
  - every region, with its constant bytes and field values;
  - the regions tiling bytes 0..77;
  - the byte at 78 left untouched.

The checksum is copied as the program copies it: the first two bytes of a
`uint32_t`, in host order. On a little-endian host, bytes 76..77 hold the
checksum's low byte first, the reverse of network order. On a big-endian
host they hold the variable's upper half, which is always zero. The
standard's description of the wire format asks for big-endian multi-byte
fields. This model follows the code, and `ChecksumBytesByHost` states the
two cases.

The numeric fields end up in network order only because callers store
them already converted (`main.c:45-47`, `main.c:203`).
`TimestampInNetworkOrder` proves this for the timestamp, which is stored
through `htonll`.

## Model

| member | source | states |
|---|---|---|
| Checksum.MakeChecksum | klvgen.c:169-174 | result is the weighted sum of `buff[0..len-1]` (byte i times 256 at even i, times 1 at odd i) modulo 2^16; below 2^16; 0 when `len` is 0; reads only the first `len` bytes and writes nothing |
| Checksum.ShiftedByte | klvgen.c:172 | the shift `buff[i] << (8 * ((i + 1) % 2))` is the byte times 256 at even i and the byte itself at odd i |
| Checksum.WeightedSumAppend | klvgen.c:171-172 | splitting the input at an even position splits the checksum sum |
| Checksum.WeightedSumIsWordSum | klvgen.c:168-174 | the per-index weighting equals the sum of the input read as big-endian 16-bit words, a trailing odd byte being a high byte |
| Checksum.WeightedSumUpdate | klvgen.c:171-172 | replacing byte i changes the sum by exactly the difference of that byte's two terms |
| Checksum.ChecksumDetectsByteChange | klvgen.c:169-174 | changing any single byte of the covered range always changes the checksum |
| ByteOrder.HostBytesAt | klvgen.c:179-184 | byte i of an n-byte memory image is the byte of significance i on a little-endian host and n-1-i on a big-endian host |
| ByteOrder.SysIsBigEndian | klvgen.c:178-185 | the first byte of the image of 0x01020304 is 0x01 exactly when the host is big-endian |
| ByteOrder.Htonll | klvgen.c:189-195 | big-endian host: returns its argument; little-endian host: byte k of the result is byte 7-k of the argument |
| ByteOrder.SwappedBytes | klvgen.c:191-194 | the eight mask-and-shift terms move byte 7-k of the argument to byte k |
| ByteOrder.HtonllIsNetworkOrder | klvgen.c:189-195 | on either host, the memory image of `htonll(v)` is the big-endian byte sequence of v |
| ByteOrder.HtonllInvolution | klvgen.c:189-195 | applying `htonll` twice gives back the argument |
| KlvPacket.LayoutTiles | klvgen.c:203-222 | the 18 destination regions start at 0, each begins where the previous ends, the last ends at 78 < 79 (the buffer size), and 0x3D = 78 - 17 |
| KlvPacket.ItemFitsRegion | klvgen.c:203-219 | each copied item has its region's size |
| KlvPacket.PrefixLength | klvgen.c:203-219 | the first n copies together cover exactly bytes 0 up to region n's offset |
| KlvPacket.ItemInBody | klvgen.c:203-219 | item i sits at region i's offset within bytes 0..75 |
| KlvPacket.PacketShape | klvgen.c:219-222 | the packet is 78 bytes: bytes 0..75 are the items, bytes 76..77 the checksum bytes of the checksum of bytes 0..75 |
| KlvPacket.PacketLayout | klvgen.c:203-219 | item i has region i's size and occupies region i of the packet |
| KlvPacket.PacketConstants | klvgen.c:73-89 | the key at 0..15, 0x3D at 16, the tag/length pairs at 17, 27, 41, 55, 61, 67, 71 and 74, and 0x02 at 73 |
| KlvPacket.LengthBytesMatchValues | klvgen.c:81-89 | the length byte of each of the eight tag/length pairs equals the size of the value region copied right after it (8, 12, 12, 4, 4, 2, 1 and 2 bytes) |
| KlvPacket.PacketFields | klvgen.c:206-216 | the timestamp image at 19..26, the first 12 bytes of mission identifier and platform at 29..40 and 43..54, the latitude, longitude and altitude images at 57..60, 63..66 and 69..70 |
| KlvPacket.TimestampInNetworkOrder | main.c:203 | a timestamp stored through `htonll` reaches bytes 19..26 in network order on either host |
| KlvPacket.ChecksumBytesByHost | klvgen.c:221-222 | for a 16-bit checksum, bytes 76..77 are its low byte then its high byte (network order reversed) on a little-endian host and two zeros on a big-endian host |
| KlvPacket.OnlyTimestampBytesChange | klvgen.c:198-200 | packets whose fields differ only in the timestamp agree on every byte of 0..75 outside 19..26 |
| KlvPacket.Memcpy | klvgen.c:203 | the source bytes land at the offset, the bytes before it and after the copied range are unchanged |
| KlvPacket.Generator.constructor | klvgen.c:55-71 | the variables start zeroed, as static storage does, with 13-byte text arrays |
| KlvPacket.Generator.CopyHeader | klvgen.c:203-206 | bytes 0..26 become the key, the set length and the timestamp item; later bytes unchanged |
| KlvPacket.Generator.CopyIdentifiers | klvgen.c:207-210 | bytes 27..54 become the mission identifier and platform items; earlier bytes kept, later bytes unchanged |
| KlvPacket.Generator.CopyPosition | klvgen.c:211-214 | bytes 55..66 become the latitude and longitude items; earlier bytes kept, later bytes unchanged |
| KlvPacket.Generator.CopyTrailer | klvgen.c:215-219 | bytes 67..75 become the altitude and version items and the checksum tag/length; earlier bytes kept, later bytes unchanged |
| KlvPacket.Generator.MakePacket | klvgen.c:201-224 | the first 78 bytes of the buffer become `Packet` of the variables whatever they held before; `checksum` is the checksum of bytes 0..75; bytes from 78 on (byte 78 of the program's buffer) are unchanged |

## Left out

- `mapValue`, `mapLatitude`, `mapLongitude` and `mapAltitude` are not modelled: they are floating-point scaling with casts and `atof`/`atoi` parsing. The model takes the mapped integers as given bit patterns.
- `updateTimestamp` is not modelled: it reads the operating system clock. The timestamp is a parameter.
- `udpInit`, `udpSendPacket`, `exitProgram` and `help` are not modelled: they are socket I/O, process exit and printing.
- `main.c` is not part of this model: option parsing, signal handling, debug dumps and the send loop. Its stores of converted values are reflected only in `TimestampInNetworkOrder`.
- `htonl` and `htons` belong to the system library and are not modelled. Latitude, longitude and altitude are held as the bit patterns the callers store.
- `int32_t` latitude and longitude are held as their 32-bit patterns (`bv32`), since `memcpy` copies bits and no arithmetic is done on them here.
- `char` arrays are byte sequences; only their first 12 bytes are copied, and the terminator is never read.
- Checksum.MakeChecksum: the `uint16_t` accumulator is an unbounded integer reduced with `% 0x1_0000` after every addition, which is the same value.
- KlvPacket.Memcpy: stands in for the C library's `memcpy`, for non-overlapping source and destination only.
- KlvPacket.Generator.MakePacket: the copies are grouped into four helper methods so that each proof stays small. The order of copies and the offsets are the source's.
- The integer value of the two checksum bytes is stated byte by byte (`ByteAt`) rather than as `low + 256 * high`.
