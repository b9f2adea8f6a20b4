# Frame generator: checksums, encoder, addresses and pacing

This project models the parts of the frame generator that compute something, and proves what they promise.

- **CRC** (`Gf2`, `CrcSpec`, `CrcTheory`, `CrcTables`, `CrcSse42`, `CrcValues`). The reference is the bit-serial
  register of section 12.1 of RFC 3720 and Appendix B of RFC 4960. The byte loop, slicing by 8 and the three-way loop
  with its matrix-built operators all return that value, for every seed, length and alignment. The reference itself is
  justified: it is the remainder of a polynomial division, it detects every burst of up to 32 bits, and not all of 33.
  The two polynomials are given by their coefficients, and both checksums of the digits 1 to 9 in digits.
- **Internet checksum** (`OnesComplement`, `Checksum`, `ChecksumValues`). The unrolled loop and its folds are the
  one's complement sum of RFC 1071 on hosts of either byte order; generating a UDP or TCP checksum makes the packet
  verify. `ChecksumValues` says what is summed, as numbers.
- **Frame encoder** (`Layers`, `Encoder`, `Ipv4Theory`, `LayersTheory`, `HeaderTheory`, `FrameTheory`,
  `FailureTheory`, `ReadBackTheory`, `WireTheory`). `Encoder.FrameGen` writes and patches the buffer as
  lib/core/encode.c does, one method a half layer, and agrees with the function `Layers.Encode`. The theory modules
  take any chain in which Payload, if present, is the last layer and none is rejected. They say which chains encode
  and how long the frame is, what the headers of the finished frame hold, when its checksums verify and when it reads
  back. `WireTheory` gives the length and every byte of the frame in numbers.
- **Addresses as text** (`MacText`). The printer and the three parsers of lib/include/net/fgen_ether.h.
- **Transmit pacing** (`Pacer`). The rate of examples/pktperf/utils.c and the bursts of examples/pktperf/pktperf.c
  over every run of the clock.

## How to read the model

Machine words are bounded natural numbers; exclusive or is defined by recursion over their bits, a shift is a
product or a quotient by a power of two, and every operation that can overflow its width is cut to it explicitly.
Memory that is only read is a sequence of bytes, and a pointer into it an index whose remainder is its alignment;
arrays, tables and frame buffers that the code writes are Dafny arrays. A 16-bit load or store takes the byte
order of the host as a parameter.

Writes and reads outside the storage of a frame, which the encoder does not guard against, end the model of a run
with the result `Fault`.

## Where a promise does not hold

Each of these but the last is stated as a lemma, with the condition that decides it.

- The IPv6 pseudo-header puts the protocol into the wrong byte of its word on big-endian hosts:
  `Checksum.PhdrCksum6Standard` and `Checksum.Generate6` hold if and only if the host is little-endian or the next
  header is 0.
- IPv4 clears the checksum field of UDP but neither that of TCP nor its own. A payload that takes bytes back from the
  headers of a short frame fills them again, from its own length up to 60. `FrameTheory.ChecksumsRead` decides, from
  the length and the fill that the payload asks for, whether a header that still gives itself 20 bytes adds up to all
  ones and whether its TCP segment verifies, and `FrameTheory.ChecksumsVerify` covers the others;
  `FailureTheory.ShrinkingFails` and `FailureTheory.RefillingFails` are chains where they do not.
- An Ethernet layer that is not the first writes to offset 0 all the same. What is there in the end is stated by
  `FrameTheory.AddressesReadBack`, `FrameTheory.VersionReadBack` and `FrameTheory.StampedHeader`;
  `FailureTheory.LateEtherFails` is a chain without a valid first header.
- An IPv4 header that lost its version byte, to an Ethernet layer inside or to the payload, gives another length for
  itself, and its layer stores the UDP or TCP checksum elsewhere. `LayersTheory.Settled` says where, and that nothing else
  changes; `FailureTheory.LandingFails` is a chain where it lands in an inner IPv4 header.
- A payload that takes back more than there is, or that asks for more than 1514 bytes, is filled again after the clamp
  with a start in front of the storage or a negative size, unless its fill is 0. A frame length that cuts off an IPv4
  header makes total_length wrap around. `FrameTheory.FrameOutcome` says exactly which chains fault or fail.
- A VLAN priority that is not given is or-ed as the plain number 7 into the VLAN id:
  `ReadBackTheory.TagReadsBack` holds if and only if the priority is given.
- A buffer of fewer than 18 bytes cuts the text of an address: `MacText.FormatUnformat`.
- If clock and interval together exceed 64 bits, the next burst follows at once: `Pacer.SpacedExactly` and
  `Pacer.WrapBursts`. A port whose packets are less than one timer cycle apart has no interval and sends nothing, and
  one whose interval exceeds 64 bits has a shorter one: `Pacer.PortBound` and `Pacer.IntervalIs`.
- Raising the rate to one packet a second can exceed the share of the link: `Pacer.RateBound`.
- lib/core/decode.h evaluates the timestamp marker with a logical or, so that its value is 1. The model writes 1.

## Model

| member | source | states |
|---|---|---|
| `CrcSpec.StepXor` | lib/utils/crc32_sse42.c:39-63 | one clock of the register is linear over exclusive or |
| `CrcSpec.CrcXor` | lib/utils/crc32_sse42.c:319-326 | superposition: a difference in the register comes out of the message as out of zeros |
| `CrcSpec.CrcAppend` | lib/utils/crc32.c:649-662 | the register is all that has to be kept between two parts of a message, at any bit boundary |
| `CrcSpec.CrcBytesAppend` | lib/utils/crc32.c:649-662 | streaming: the checksum of a then b, resumed, is that of a followed by b |
| `CrcSpec.CrcWord` | lib/utils/crc32_sse42.c:39-63 | a word of any width may enter the register at once instead of bit by bit |
| `CrcSpec.CrcLoad` | lib/utils/crc32.c:614-625 | a little-endian load brings a whole run of bytes into the register in one addition |
| `CrcSpec.CrcTableByte` | lib/utils/crc32.c:160-169 | the byte step through a table is eight clocks of the bit-serial register |
| `CrcSpec.ZerosBytes` | lib/utils/crc32_sse42.c:195-200 | an operator that appends zeros may be applied to the four bytes of a word separately |
| `CrcTheory.DivisionExists` | lib/utils/crc32.c:183-195 | n clocks leave a quotient and a remainder of polynomial division |
| `CrcTheory.DivisionUnique` | lib/utils/crc32.c:183-195 | no other quotient of n terms leaves a remainder |
| `CrcTheory.CrcIsRemainder` | lib/utils/crc32.c:183-195 | the CRC is the remainder of dividing seed and message by the generator polynomial: a pair is that quotient and remainder if and only if it satisfies the division equation |
| `CrcTheory.ZerosInjective` | lib/utils/crc32.h:49-57 | appending zeros is a bijection of registers |
| `CrcTheory.CrcInjective` | lib/utils/crc32.h:49-57 | equal suffixes neither create nor hide a difference of registers |
| `CrcTheory.BurstDetected` | lib/utils/crc32.h:49-66 | messages that differ only within 32 consecutive bits, anywhere, have equal CRCs if and only if they are equal |
| `CrcTheory.BurstOf33Missed` | lib/utils/crc32.h:49-66 | 32 is the limit: two different 33-bit messages have the same CRC for every seed |
| `CrcTheory.ByteBurstDetected` | lib/utils/crc32.c:160-169 | messages that differ only within four consecutive bytes have equal CRCs if and only if they are equal |
| `CrcTables.ByteLoop` | lib/utils/crc32.c:160-169 | the byte loop returns the bit-serial CRC of the buffer for every seed and length |
| `CrcTables.Crc32Raw` | lib/utils/crc32.h:49-57 | the bit-serial CRC with the CRC-32 polynomial |
| `CrcTables.Crc32` | lib/utils/crc32.h:59-66 | CRC-32 of the buffer, all ones in and complement out |
| `CrcTables.SingleTableCrc32c` | lib/utils/crc32.c:160-169 | the bit-serial CRC-32C, byte by byte |
| `CrcTables.ZerosLookup` | lib/utils/crc32.c:598-634 | four lookups in tables one byte of zeros apart are the operator on a 32-bit word |
| `CrcTables.SliceStep` | lib/utils/crc32.c:598-634 | eight bytes enter as two words, of which only the first meets the register |
| `CrcTables.SliceBy8` | lib/utils/crc32.c:614-625 | one slicing-by-8 step is the bit-serial CRC of its eight bytes |
| `CrcTables.Sb8` | lib/utils/crc32.c:598-634 | prologue, slices and epilogue cover the buffer exactly: bit-serial CRC-32C for every prologue that fits |
| `CrcTables.MultiTableCrc32c` | lib/utils/crc32.c:636-647 | the same with the prologue taken from the alignment of the address |
| `CrcTables.CalculateCrc32c` | lib/utils/crc32.c:649-662 | for every seed, address and length the same value as the byte loop; the prologue never exceeds the length |
| `CrcTables.Crc32Residue` | lib/utils/crc32.h:49-66 | four trailing bytes give one fixed residue if and only if they are the little-endian CRC of the message |
| `CrcValues.Crc32cTerms` | lib/utils/crc32_sse42.c:72-73 | the word stands for the polynomial of section 12.1 of RFC 3720, coefficient by coefficient |
| `CrcValues.Crc32Terms` | lib/utils/crc32.c:7-39 | the word stands for the polynomial of section 3.2.9 of IEEE 802.3, coefficient by coefficient |
| `CrcValues.XorNumber` | lib/utils/crc32.h:49-57 | exclusive or of numbers is that of 32-bit machine words |
| `CrcValues.ClockNumber` | lib/utils/crc32.h:49-57 | one clock of the register on numbers is shift, test and exclusive or on a machine word |
| `CrcValues.OneByte` | lib/utils/crc32.c:47-122 | the byte 1 into an empty register gives the second entry of either table, in digits |
| `CrcValues.Crc32cDigits` | lib/utils/crc32.c:649-662 | the CRC-32C of the digits 1 to 9, with ones in and complement out, is 0xe3069283 |
| `CrcValues.Crc32Digits` | lib/utils/crc32.h:59-66 | the CRC-32 of the digits 1 to 9 is 0xcbf43926 |
| `CrcSse42.MatrixTimes` | lib/utils/crc32_sse42.c:98-111 | the loop computes the product of matrix and vector over GF(2) |
| `CrcSse42.MatVecXor` | lib/utils/crc32_sse42.c:98-111 | the product is linear over exclusive or |
| `CrcSse42.ProductComposes` | lib/utils/crc32_sse42.c:116-124 | a product of matrices is the composition of the operators |
| `CrcSse42.MatrixSquare` | lib/utils/crc32_sse42.c:116-124 | squares a matrix into a second array |
| `CrcSse42.ZerosOpApplies` | lib/utils/crc32_sse42.c:133-171 | a matrix with the right 32 columns does to every register what the zero bits do |
| `CrcSse42.ZerosOpSquare` | lib/utils/crc32_sse42.c:133-171 | squaring the operator doubles the number of zeros |
| `CrcSse42.OneZeroOp` | lib/utils/crc32_sse42.c:139-147 | the first matrix appends one zero bit |
| `CrcSse42.ZerosOp` | lib/utils/crc32_sse42.c:133-171 | terminates with the operator for 8 * 2^k zero bits in `even`, 2^k the largest power of two up to max(len, 1), whichever buffer the last square is in |
| `CrcSse42.FillColumn` | lib/utils/crc32_sse42.c:177-190 | fills the four entries of one byte value and leaves the others alone |
| `CrcSse42.ZerosTable` | lib/utils/crc32_sse42.c:177-190 | every entry of the table holds what the zeros make of its byte in its place |
| `CrcSse42.ZerosOfLength` | lib/utils/crc32_sse42.c:177-190 | for a power of two the table stands for exactly that many zero bytes |
| `CrcSse42.ShiftIsZeros` | lib/utils/crc32_sse42.c:195-200 | four lookups append the zeros to every 32-bit register |
| `CrcSse42.U8IsByte` | lib/utils/crc32_sse42.c:39-54 | the byte instruction by its meaning is the CRC of one byte |
| `CrcSse42.U64IsBytes` | lib/utils/crc32_sse42.c:56-62 | the 64-bit instruction by its meaning is the CRC of eight bytes in memory order |
| `CrcSse42.Lanes` | lib/utils/crc32_sse42.c:263-275 | three registers run over three adjacent blocks, the second and third from zero |
| `CrcSse42.JoinLanes` | lib/utils/crc32_sse42.c:319-322 | three lanes and the accumulator join to the register of the three blocks in a row |
| `CrcSse42.JoinBlock` | lib/utils/crc32_sse42.c:319-322 | the accumulator update as operators: shift of one block, shift of two |
| `CrcSse42.ThreeWay` | lib/utils/crc32_sse42.c:259-326 | after every round accumulator and first lane together are the register of all bytes so far; it ends with less than three blocks left |
| `CrcSse42.Hardware.constructor` | lib/utils/crc32_sse42.c:205-215 | builds the four tables for one and two LONG and SHORT blocks |
| `CrcSse42.Hardware.Crc32c` | lib/utils/crc32_sse42.c:225-379 | for every seed, length and alignment the bit-serial CRC-32C |
| `OnesComplement.FoldNorm` | lib/include/net/fgen_ip.h:169-175 | a fold keeps the representative modulo 65535, zero apart |
| `OnesComplement.OnesSumNorm` | lib/include/net/fgen_ip.h:128-158 | addition with end-around carry, word by word, comes to the representative of the plain total |
| `OnesComplement.SwapNorm` | lib/include/net/fgen_ip.h:128-158 | multiplying by 256 modulo 65535 exchanges the two bytes |
| `Checksum.RawSum` | lib/include/net/fgen_ip.h:128-158 | the unrolled loop with its odd tail adds up all words, cut to 32 bits |
| `Checksum.ReduceNorm` | lib/include/net/fgen_ip.h:169-175 | two folds reduce every 32-bit sum to its representative and lose nothing in the cast |
| `Checksum.RawCksumBuf` | lib/include/net/fgen_ip.h:187-194 | the method computes the checksum function that the lemmas are about |
| `Checksum.RawCksumNorm` | lib/include/net/fgen_ip.h:187-194 | up to that length the folds see the whole sum |
| `Checksum.LongestExact` | lib/include/net/fgen_ip.h:128-158 | no buffer of n bytes makes the sum wrap around 32 bits if and only if n is at most 131074 |
| `Checksum.RawCksumIsOnesSum` | lib/include/net/fgen_ip.h:187-194 | the result is the one's complement sum of section 1 of RFC 1071 |
| `Checksum.RawCksumZero` | lib/include/net/fgen_ip.h:187-194 | zero if and only if every byte is zero |
| `Checksum.RawCksumChain` | lib/include/net/fgen_ip.h:128-158 | chaining a sum over an even-length prefix is summing the concatenation |
| `Checksum.RawCksumSwap` | lib/include/net/fgen_ip.h:128-194 | a big-endian host computes the byte-swapped checksum |
| `Checksum.ByteOrderIndependent` | lib/include/net/fgen_ip.h:128-194 | section 2(B) of RFC 1071: both byte orders store the same two bytes, odd tails included |
| `Checksum.StoreSum` | lib/include/net/fgen_ip.h:248-358 | storing an aligned word changes the sum by the difference of the words |
| `Checksum.UdpTcpSumIsOnesSum` | lib/include/net/fgen_ip.h:284-304 | two partial checksums and a fold are the one's complement sum of pseudo-header and segment |
| `Checksum.GenerateOver` | lib/include/net/fgen_ip.h:319-358 | whatever the field held, the packet verifies after generation if and only if the field was 0 modulo 65535 |
| `Checksum.GenerateVerify` | lib/include/net/fgen_ip.h:319-358 | the round trip for every header and segment, UDP's replaced zero included |
| `Checksum.VerifyWord` | lib/include/net/fgen_ip.h:349-358 | a passing packet with one word replaced still passes if and only if the words are equal modulo 65535 |
| `Checksum.UdpTcpByteOrder` | lib/include/net/fgen_ip.h:319-358 | both byte orders store the same checksum and accept the same packets |
| `Checksum.HeaderSumsToOnes` | lib/include/net/fgen_ip.h:224-230 | storing the header checksum makes the header, options included, add up to all ones if and only if its field was 0 modulo 65535 |
| `Checksum.PhdrCksum6Standard` | lib/include/net/fgen_ip.h:399-415 | the pseudo-header sum is that of section 8.1 of RFC 8200 if and only if the host is little-endian or the next header is 0 |
| `Checksum.Generate6` | lib/include/net/fgen_ip.h:430-447 | the stored checksum makes segment and standard pseudo-header add up to all ones under exactly that condition |
| `ChecksumValues.WordSumIsBytes` | lib/include/net/fgen_ip.h:128-158 | in network byte order the words add up to 256 times the bytes at even offsets and once those at odd ones |
| `ChecksumValues.ExampleSum` | lib/include/net/fgen_ip.h:187-194 | the example of section 3 of RFC 1071, in both byte orders |
| `ChecksumValues.UdpTcpSumIs` | lib/include/net/fgen_ip.h:248-304 | without the layout of a pseudo-header: addresses, protocol, announced length and segment as numbers, reduced once; 0 for a negative length |
| `ChecksumValues.UdpTcpSumWords` | lib/include/net/fgen_ip.h:248-304 | the same as the one-by-one sum of the four words of the addresses, the protocol, the length and the words of the segment |
| `ChecksumValues.UdpTcpCksumIs` | lib/include/net/fgen_ip.h:319-329 | the complement of that sum, except that UDP, and only UDP, stores all ones instead of 0 |
| `ChecksumValues.TcpExample` | lib/include/net/fgen_ip.h:224-329 | the checksums of a concrete TCP packet, 0xec85 and 0xfab7 |
| `ChecksumValues.UdpTcpCksum6Is` | lib/include/net/fgen_ip.h:399-447 | what IPv6 puts on the wire, in numbers: the complement of the sum of addresses, payload length, next header and segment, never 0 |
| `Encoder.FrameGen.StartEther` | lib/core/encode.c:111-147 | writes default and given addresses at offset 0 |
| `Encoder.FrameGen.StartVlan` | lib/core/encode.c:172-216 | writes the tag with a zero protocol |
| `Encoder.FrameGen.StartIpv4` | lib/core/encode.c:255-298 | writes the header without its length, protocol and checksum |
| `Encoder.FrameGen.FinishVlan` | lib/core/encode.c:218-241 | patches the protocol of the tag or refuses the inner tag |
| `Encoder.FrameGen.FinishIpv4` | lib/core/encode.c:300-333 | patches length, protocol and both checksums |
| `Encoder.FrameGen.FinishL4` | lib/core/encode.c:308-322 | the checksum of the next header, the field cleared first for UDP only |
| `Encoder.FrameGen.FinishUdp` | lib/core/encode.c:401-427 | patches ports and datagram length |
| `Encoder.FrameGen.FinishTcp` | lib/core/encode.c:468-490 | patches ports, offset, flags and window |
| `Encoder.FrameGen.StartPayload` | lib/core/encode.c:613-667 | sets the length and fills what was added |
| `Encoder.FrameGen.FinishPayload` | lib/core/encode.c:669-684 | fills again what the clamp added |
| `Encoder.FrameGen.NextLayer` | lib/core/encode.c:50-62 | the mutual recursion over the buffer terminates and agrees with the function `Encode` on result and frame |
| `Encoder.FrameGen.EncodeFrame` | lib/core/encode.c:741-811 | a whole run over the layers and the closing Done agrees with `Encode` |
| `LayersTheory.LengthClamped` | lib/core/encode.c:686-716 | every chain that encodes, whatever its layers, ends with a length from 60 to 1514 |
| `LayersTheory.PayloadWrites` | lib/core/encode.c:630-678 | which bytes in front of it a payload changes, in terms of its length and fill |
| `LayersTheory.EncodeSeen` | lib/core/encode.c:111-716 | by induction over the chain: exactly what the layers inside do to every byte in front of them, and to the start of the frame |
| `LayersTheory.RefillPads` | lib/core/encode.c:677-708 | a payload refills headers only in a frame of the least length |
| `LayersTheory.FoundByte` | lib/core/encode.c:268-304 | every byte of an IPv4 header as its second half finds it, after payload and inner Ethernet layers |
| `LayersTheory.LeaveBehind` | lib/core/encode.c:149-490 | a second half changes nothing behind its header, unless the checksum it stores lands there |
| `LayersTheory.Settled` | lib/core/encode.c:111-716 | by induction over the chain: every byte from a layer on is what that layer and those inside made it, unless the checksum of an enclosing IPv4 layer lands on it |
| `Ipv4Theory.LeaveKeeps` | lib/core/encode.c:300-333 | the second half of IPv4, on any storage, changes its own fields and one checksum and nothing else |
| `Ipv4Theory.LeaveSums` | lib/core/encode.c:327 | the header, as long as it says it is, adds up to all ones if and only if its checksum field was 0 modulo 65535 |
| `Ipv4Theory.LeaveVerifies` | lib/core/encode.c:308-322 | a UDP segment verifies, and a TCP segment if and only if its field was 0 modulo 65535, wherever a header of 16 bytes or more says that it begins |
| `HeaderTheory.HeaderSums` | lib/core/encode.c:268-333 | the same of the header in the finished frame, with the field read off the layers |
| `HeaderTheory.TcpFieldLeft` | lib/core/encode.c:429-490 | TCP leaves its numbers, urgent pointer and, for the IPv4 layer, its checksum field: zero bytes, or those of the payload from where it refills |
| `HeaderTheory.SegmentVerifies` | lib/core/encode.c:308-322 | the same of the segment in the finished frame |
| `HeaderTheory.TotalLengthField` | lib/core/encode.c:303-306 | total_length in the finished frame |
| `HeaderTheory.HeaderByteLeft` | lib/core/encode.c:272-297 | every other byte of an IPv4 header in the finished frame |
| `HeaderTheory.ProtocolField` | lib/core/encode.c:308-321 | the protocol names the next header in the finished frame |
| `HeaderTheory.UdpFields` | lib/core/encode.c:401-421 | ports and length of UDP in the finished frame, whatever the payload refills |
| `HeaderTheory.TcpFields` | lib/core/encode.c:468-486 | ports, data offset, flags and window of TCP in the finished frame |
| `HeaderTheory.TagBytes` | lib/core/encode.c:192-235 | the four bytes of a tag in the finished frame |
| `FrameTheory.LeaveIpv4Faults` | lib/core/encode.c:300-333 | the second half of IPv4 reads outside the storage if and only if the segment it sums does not fit, whatever is left of its header |
| `FrameTheory.EncodeOutcome` | lib/core/encode.c:111-716 | result and final length of the recursion at every layer, read off the layers |
| `FrameTheory.OutcomeExact` | lib/core/encode.c:218-333 | fault and error characterised by the chain: a payload that faults, an IPv4 header cut off by the length, a Dot1Q tag directly in a Dot1Q tag |
| `FrameTheory.FrameOutcome` | lib/core/encode.c:741-811 | a chain encodes if and only if none of these occurs, and then has the length its layers ask for |
| `FrameTheory.ChecksumsVerify` | lib/core/encode.c:255-333 | for every IPv4 layer of every finished frame: the header adds up to all ones if and only if its checksum field was clear; a UDP segment verifies, a TCP segment behind a header of 20 bytes if and only if its field was clear; where no enclosing checksum lands |
| `FrameTheory.LengthFields` | lib/core/encode.c:298-306 | total_length and dgram_len count from their header to the end of the frame, whatever the payload refills |
| `FrameTheory.LengthIs` | lib/core/encode.c:268-297 | the header length is 20 if and only if the payload keeps the version byte or fills with one of that length |
| `FrameTheory.HeaderClearIs` | lib/core/encode.c:327 | the IPv4 checksum field is clear if and only if the payload begins behind it or fills it with zeros or ones |
| `FrameTheory.TcpClearIs` | lib/core/encode.c:316-322 | the same of the TCP checksum field |
| `FrameTheory.StampedHeader` | lib/core/encode.c:111-147 | an IPv4 header at the start of the frame takes length and checksum field from the last Ethernet layer inside |
| `FrameTheory.UntouchedBehind` | lib/core/encode.c:308-322 | behind headers of 20 bytes no checksum lands in another IPv4 layer or its segment |
| `FrameTheory.ChecksumsRead` | lib/core/encode.c:255-333 | total_length, header sum and segment verification of every IPv4 layer that keeps its version, decided by where the payload begins and what it fills with |
| `FrameTheory.EtherTypeFinal` | lib/core/encode.c:149-164 | the final EtherType names the enclosed layer |
| `FrameTheory.AddressesReadBack` | lib/core/encode.c:111-147 | the addresses of the first Ethernet layer are in the finished frame if and only if the last one has the same, unless the payload refills them |
| `FrameTheory.VersionReadBack` | lib/core/encode.c:111-298 | any IPv4 layer keeps its version byte if and only if no Ethernet layer inside writes another one and the payload keeps it |
| `FailureTheory.ShrinkingDecides` | lib/core/encode.c:613-684 | IPv4/TCP and a payload that takes n bytes back, for every n up to 20 and fill: it encodes, and verifies if and only if n <= 2, or it fills with zeros, or with ones and n >= 4 |
| `FailureTheory.ShrinkingFails` | lib/core/encode.c:613-684 | a concrete one with the default fill: it encodes and fails TCP verification |
| `FailureTheory.RefillingDecides` | lib/core/encode.c:613-684 | Ether/IPv4/UDP and a payload that takes n bytes back, for every n up to 27 and fill: length and UDP are right, and the IPv4 header adds up to all ones if and only if n <= 16, or it fills with zeros, or with ones and n >= 18 |
| `FailureTheory.RefillingFails` | lib/core/encode.c:613-684 | a concrete one with the default fill: its IPv4 header does not add up to all ones |
| `FailureTheory.LateEtherFails` | lib/core/encode.c:111-127 | a concrete chain with Ethernet behind IPv4: the inner header overwrites the version of the IPv4 header |
| `FailureTheory.LandingFails` | lib/core/encode.c:308-322 | a concrete chain with VXLAN and no outer Ethernet: the outer checksum lands in the inner IPv4 header and changes its destination and its sum |
| `ReadBackTheory.TagReadsBack` | lib/core/decode.c:261-264 | id, priority and CFI read back as given if and only if the priority is given |
| `ReadBackTheory.ReadsExactly` | lib/core/encode.c:192-235 | from any layer of a standard chain on, a reader that follows the type fields finds those asked for if and only if they are intact and not cut |
| `ReadBackTheory.ReadBack` | lib/core/encode.c:111-333 | Ether/VLAN*/IPv4/(UDP or TCP): reading the bytes of the frame recovers the layers with offsets, tags, addresses and ports if and only if the length does not cut them and the payload does not change what the reader uses |
| `ReadBackTheory.IntactKept` | lib/core/encode.c:613-684 | a payload that takes nothing back from the headers leaves them intact |
| `WireTheory.DoneLength` | lib/core/encode.c:686-716 | without a payload the frame has the length of its headers, held between 60 and 1514 |
| `WireTheory.PayloadLengthIs` | lib/core/encode.c:630-678 | behind h bytes of headers a size n gives 60, n - 4 or 1514 bytes, and append n gives h + n in 16 bits, held between 60 and 1514 |
| `WireTheory.PayloadFaultsIs` | lib/core/encode.c:630-678 | in numbers, when a payload writes outside the storage: never for a size |
| `WireTheory.Unfinished` | lib/core/encode.c:50-62 | headers that nothing ends, or that an unknown layer ends, are an error |
| `WireTheory.NextOffset` | lib/core/encode.c:111-609 | how many bytes behind a header the next one begins, for every layer |
| `WireTheory.RefusesIs` | lib/core/encode.c:218-224 | Dot1Q refuses Dot1Q inside it, and nothing else is refused |
| `WireTheory.Ipv4Wire` | lib/core/encode.c:262-333 | every byte of the IPv4 header in the finished frame but its checksum, in numbers, with the default addresses |
| `WireTheory.TagWire` | lib/core/encode.c:172-235 | every byte of a tag in the finished frame, in numbers, with the defaults |
| `WireTheory.EarlyWire` | lib/core/encode.c:333-609 | the other bytes of TCP, VXLAN and timestamps, in numbers; IPv6, Echo and Raw leave the storage as it was |
| `WireTheory.VxlanWire` | lib/core/encode.c:516-536 | the flags of VXLAN and the protocol of an enclosed Ethernet layer, in numbers |
| `WireTheory.PortsWire` | lib/core/encode.c:381-490 | ports, source first, with every default and override, the UDP length and the TCP flags and window, in numbers |
| `WireTheory.EtherWire` | lib/core/encode.c:111-160 | the first 14 bytes of the frame, in numbers, with the default addresses and every EtherType |
| `WireTheory.PayloadWire` | lib/core/encode.c:630-678 | every byte behind the headers: the fill up to the length asked for or up to the end of the frame, then what was in the storage |
| `WireTheory.LengthsNoted` | lib/core/encode.c:111-490 | by induction over the chain: the length every layer records, in numbers, and that the others record none |
| `WireTheory.TscNoted` | lib/core/encode.c:563-582 | the recorded timestamp offset is that of the last timestamp layer |
| `MacText.GetEtherAddr6` | lib/include/net/fgen_ether.h:357-382 | accepts exactly six pairs of digits between colons, 17 characters, and returns their values |
| `MacText.FourDigits` | lib/include/net/fgen_ether.h:393-400 | reads a group of exactly four digits |
| `MacText.GetEtherAddr3` | lib/include/net/fgen_ether.h:385-409 | accepts exactly three groups of four digits, 14 characters, so no text that the other parser accepts |
| `MacText.UnformatAddr` | lib/include/net/fgen_ether.h:425-435 | tries both parsers; 0 and the address, or -1 |
| `MacText.XdigitIs` | lib/include/net/fgen_ether.h:344-354 | each of the 16 digits, in lower and upper case, has its value, and no other character has one |
| `MacText.UnformatIs` | lib/include/net/fgen_ether.h:357-435 | a text gives an address if and only if it spells it, in digits of either case, in six groups of two or three of four |
| `MacText.SpelledReads` | lib/include/net/fgen_ether.h:357-435 | the text of every address in the 16 lower-case or the 16 upper-case digits, written out, reads as that address |
| `MacText.FullTextForm` | lib/include/net/fgen_ether.h:333-342 | the full text of every address is well formed and has its value |
| `MacText.FullTextUpper` | lib/include/net/fgen_ether.h:333-342 | the full text is that of the address in the 16 upper-case digits, written out |
| `MacText.FormatFits` | lib/include/net/fgen_ether.h:333-342 | what is printed is the longest front of that text that leaves room for the terminator |
| `MacText.FormatUnformat` | lib/include/net/fgen_ether.h:333-435 | printing and parsing returns the address if and only if the buffer has at least 18 bytes, or has size 0 and held the address before |
| `MacText.LoopStep` | lib/include/net/fgen_ether.h:458-469 | one round of the number loop, including where it gives up |
| `MacText.ReadNumbers` | lib/include/net/fgen_ether.h:458-469 | the loop reads the numbers that the definition by recursion names |
| `MacText.EtherAton` | lib/include/net/fgen_ether.h:448-491 | returns the address of six octets or of three words in range, otherwise refuses |
| `MacText.StrtoulIs` | lib/include/net/fgen_ether.h:458-462 | white space, a sign, 0x and digits make a number: its value, its negation modulo 2^64, or the overflow |
| `MacText.AtonIs` | lib/include/net/fgen_ether.h:470-491 | the address is six numbers below 256, or three of two bytes each with the high one first |
| `MacText.AtonAgrees` | lib/include/net/fgen_ether.h:425-491 | on every text that ether_unformat_addr accepts, fgen_ether_aton returns the same address |
| `Pacer.Port.PacketRate` | examples/pktperf/utils.c:37-56 | sets wire size, rate and interval, with every 64-bit operation cut to its width |
| `Pacer.RateBound` | examples/pktperf/utils.c:43-52 | rate * wire size * 100 is at most link speed * requested percentage if and only if that share allows one packet a second, which it does when the rate was not raised |
| `Pacer.RateIs` | examples/pktperf/utils.c:37-52 | in numbers: p * 100 <= q * rate < (p + 1) * 100 for the q whole packets of 8 * size + 160 bits that the link carries in a second, and 1 below that |
| `Pacer.RateValue` | examples/pktperf/utils.c:37-52 | 64-byte frames at 10 Gbit/s and 100 percent: 14880952 packets a second |
| `Pacer.IntervalOf` | examples/pktperf/utils.c:53-55 | in numbers: for c * p <= hz < (c + 1) * p the interval is queues * burst * c if and only if that fits 64 bits, and 0 without a link or a rate |
| `Pacer.TxLoop` | examples/pktperf/pktperf.c:146-157 | the polling loop sends exactly the bursts that the definition by recursion names |
| `Pacer.EventsAre` | examples/pktperf/pktperf.c:146-157 | every burst is at the reading of a poll and carries what the device took then |
| `Pacer.SpacedExactly` | examples/pktperf/pktperf.c:146-157 | over every run with a clock that never decreases: consecutive bursts are an interval apart if and only if no poll that sends before the last one adds up beyond 64 bits |
| `Pacer.BurstsSpan` | examples/pktperf/pktperf.c:146-157 | then any k bursts of one queue span at least k - 1 intervals, and the first waits for one |
| `Pacer.NeverLate` | examples/pktperf/pktperf.c:149-156 | after the first interval no poll finds a whole interval gone by without a burst, wrapped or not |
| `Pacer.WrapBursts` | examples/pktperf/pktperf.c:149-156 | after any poll that sends, the next one sends if and only if the interval is over or the sum wrapped around 64 bits |
| `Pacer.QueueBound` | examples/pktperf/pktperf.c:186-199 | what one queue sends in any window, scaled by the interval |
| `Pacer.IntervalIs` | examples/pktperf/utils.c:53-55 | the interval is queues * burst * (hz / pps) if and only if that fits 64 bits |
| `Pacer.PortBound` | examples/pktperf/pktperf.c:186-199 | all queues of a port: what they send in any window of W cycles is bounded by the interval, whatever it is; if it did not overflow, by W / (hz / pps) + queues * burst packets, and by none when hz / pps is 0 |

## Left out

- FrameTheory.ChecksumsVerify: an IPv4 header that gives itself a length below 12, or below 16 for its segment; a TCP segment behind one that is not 20, whose field is wherever that length points; and a header or segment in which the checksum of an enclosing IPv4 layer lands, as in FailureTheory.LandingFails.
- FrameTheory.FrameOutcome: chains in which a layer follows Payload, or a layer is rejected.
- ReadBackTheory.ReadBack: the contents of VXLAN, timestamp, Echo and Raw headers are written but not read back, and neither is what follows the first UDP or TCP header.
- MacText.AtonAgrees: fgen_ether_aton accepts more texts, for example groups of one digit or with 0x; for these MacText.StrtoulIs and MacText.AtonIs say what it returns.
- MacText.EtherAton: strtoul is modelled from section 7.22.1.4 of ISO C11 in the C locale; what a refused text leaves in the address is not stated.
- CrcTables.MultiTableCrc32c: requires what its only caller checks, that the alignment prologue fits the length.
- Encoder.FrameGen.EncodeFrame: takes parsed layers; splitting the frame text, strtok_r, strtol and inet_pton are not modelled, and what a layer writes before it rejects its options is not either.
- Encoder.FrameGen.NextLayer: says nothing about the bytes of a frame after a fault, which is undefined behaviour in the source.
- Pacer.PortBound: the interval stays fixed during the run, the readings do not decrease, and no poll that sends comes within an interval of the counter's end, except for the last.
- The literal entries of the CRC tables: the model generates the tables from the polynomials they are documented to come from.
- The compile-time choice of calculate_crc32c between the hardware and the table form; both are proved to return the same value.
- The inline assembly of the CRC instructions, which is given by its meaning, and the 32-bit build of lib/utils/crc32_sse42.c.
- The result code of the frame encoder for a chain that fails, its logging, and the IPv4 and transport offsets it records.
- Frame storage: the growth and sharing of lib/utils/salloc.c; the storage is an array of at least 1514 bytes.
- Overflow of a C int in the length arithmetic of Payload.
- The textual decoder, apart from the fields of a tag control word.
- IPv6 extension headers, the address predicates, byte swapping and other bit macros: easy members only.
- Receiving, statistics, memory pools and port set-up of the packet generator; the number of packets the device takes of a burst is an input.
- Memory, signals, terminal, logging and /proc or /sys access: system calls and user interface.
