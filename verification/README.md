# Codec and state cores of the MBMS transmitter

This project models the stateful cores of an LTE/5G broadcast transmitter (a fork of srsRAN)
and proves properties of them for all inputs, all buffers and all runs.

- **Bit cursor and PER codec** (`Bits`, `BitCursor`, `BitRefs`, `Fields`, `Per`, `BitString`,
  `ExtGroups`, `OpenType`, `OpenCut`, `NestedSplice`). A class holds a byte array, an octet index
  and a bit offset. Each method is proved against one abstract cursor: a bit sequence and a
  position. A write, `Put`, replaces bits from the position on, stops at the end of the buffer and
  clears the rest of the last octet. Two writes are one write of the concatenation (`BitCursor.PutPut`), also when the
  buffer fills up half-way. Everything above that level is an encoder and a decoder over bit
  sequences, proved inverse; the methods are proved to compute exactly those functions, success
  codes and failure positions included.
  What stands on the wire is stated octet by octet, with the codes and widths of the standards
  written out (`WireLayout`, also for the NAS elements below).
- **JSON printer** (`Json`, `JsonParse`), judged by a JSON parser written for the purpose.
- **NAS information elements** (`Nas`, `NasIdentity`): lengths written afterwards through a saved
  copy of the cursor, the S-NSSAI list, the 5GS mobile identity.
- **Two-thread handshake and framing** of the example eNodeB in MBSFN mode (`Mbsfn`), a state
  machine over every access to a shared variable, in every interleaving.
- **Bearer maps**, **cell list checks**, **legacy bit packers** (`Bearers`, `Cells`, `LegacyBits`).

## Where the code does less than it promises

Each of these has a lemma or a contract with the exact condition.

- A bit field wider than 32 bits is written whole but read modulo 2^32
  (`Fields.WideFieldRoundTrip`, `Fields.WideFieldLost`).
- `pack_bytes` refuses octet-aligned data that would fill the buffer exactly
  (`Fields.PackBytesBound`).
- The unaligned constrained number and the splice of an open type report success when the
  buffer is too small. Where every body fits its side buffer, a message packed with success can be
  read back exactly from the room that `OpenCut.Needed` says (`OpenCut.MessageRoundTrip`);
  `OpenCut.AcceptedButLost` is one that cannot.
- An open type that does not fit the side buffer around it is cut off without a report, in any
  room (`NestedSplice.NestedSpliceLost`).
- Widths come from a float logarithm. From a range of 2^24 + 1 values on, at the latest, it is too
  small, and a number that does not fit the width is lost (`Per.WidthDecides`, `Per.WideRangeLost`).
- A failed read may leave the extension groups with a count larger than their vector
  (`ExtGroups.CountWithinVector`, `ExtGroups.CountBeyondVector`), and a flag vector loses its flags
  when it grows a second time beyond its first 16 places (`ExtGroups.GroupsPacker.Set`).
- Aligned lengths from 16384 to 65536 are encoded but never decoded (`Per.LengthRoundTrip`,
  `Per.LongLengthLost`).
- After an open type, or an unknown extension group, the skip covers at most 32 bits
  (`OpenType.UnknownTailSkipped`, `ExtGroups.SkipGroupIff`, `ExtGroups.FiveOctetsNotSkipped`).
- Encoder and decoder of a bounded bit string size its prefix differently when `ub - lb` is a
  power of two or `ub` is at least 65536 (`BitString.PrefixRoundTrip`,
  `BitString.PowerOfTwoBoundsLost`).
- The NSSAI packer checks the length modulo 256, the identity packer writes it modulo 65536
  (`Nas.NssaiRoundTrip` and `Nas.LongListLost`, `NasIdentity.IdentityRoundTrip` and
  `NasIdentity.LongIdentityLost`).
- A length written afterwards clears the rest of the octet in which it ends. Off an octet boundary
  it damages every body that has a one there (`Nas.PatchSparesBody`, `Nas.PatchedOffBoundary`).
- JSON strings are not escaped, and a member may be written without a name
  (`JsonParse.WriterOutputParses`, `JsonParse.WriterOutputLost`).
- The transmit loop writes a test pattern over the block it was handed before encoding it
  (`Mbsfn.EncodedUnderPattern`, `Mbsfn.ReceivedButNotSent`).
- Two bearers of one user on the same LCID: removing either loses the LCID of the other
  (`Bearers.SharedLcidIsLost`).
- A last group of fewer than eight bits comes back moved to the low end of its byte
  (`LegacyBits.PackThenUnpack`).

## Modelling decisions

- `log2f`, `log2`, `ceilf` and `floorf` on numbers are exact integer functions (`CeilLog2`,
  `BitLength`, `Octets`). The float forms agree with them for numbers up to 2^20, and the results
  that use them are stated for ranges up to there (`EXACT_RANGE`).
- 64-bit and 32-bit word sizes appear where they decide something (`UINT64_RANGE`,
  `UINT32_RANGE`, `LowBits(_, 32)`); a float cast to `uint8_t` is taken modulo 256.
- A `requires` of the methods states the C++ types of the arguments, or that a value fits the
  buffers the code can hold (`MAX_BUFFER`, because `distance` counts bits in an `int`).
- Flag accesses of the two threads are atomic steps, and so is the set-up of the grant. The copy
  of the leftover to the front of `data2`, which may overlap, is a move.
- In the aligned variant a message starts on a clean cursor: the unused bits of the current octet
  are zero, as every run of packs and alignments leaves them (`Fields.RunStaysClean`).
- Frequency tables, the network and the base configuration are parameters. Logging is dropped.

## Model

| member | source | states |
|---|---|---|
| `BitCursor.PutPut` | lib/src/asn1/asn1_utils.cc:147-176 | consecutive writes equal one write of the concatenated bits from any bit offset, including when the buffer overflows in either of them; both fit exactly when the concatenation fits |
| `BitCursor.PutAt` | lib/src/asn1/asn1_utils.cc:147-176 | a write that fits stands in the buffer at the old position and every earlier bit is kept |
| `BitCursor.PutClean` | lib/src/asn1/asn1_utils.cc:161-166 | after any write the unused low bits of the current octet are zero |
| `BitRefs.BitRef.Pack` | lib/src/asn1/asn1_utils.cc:147-176 | for every width and offset the octet loop with its masks appends the big-endian low bits of the value and nothing else, truncated at the end of the buffer; success exactly when the width is below 64 and the bits fit |
| `BitRefs.BitRef.Unpack` | lib/src/asn1/asn1_utils.cc:178-205 | the value is the big-endian number of the next bits, modulo 2^32; success exactly when the type is wide enough and the bits are there; a short buffer moves the cursor to its end, a narrow type moves nothing |
| `BitRefs.BitRef.PackBytes` | lib/src/asn1/asn1_utils.cc:312-331 | copy and loop branches both append the bits of the data; when the bound check passes the unchecked loop cannot fail; a refusal changes nothing |
| `BitRefs.BitRef.UnpackBytes` | lib/src/asn1/asn1_utils.cc:244-268 | success exactly when the octets are there, and then the data are the octets standing at the cursor; a refusal moves nothing |
| `BitRefs.BitRef.AlignBytes` | lib/src/asn1/asn1_utils.cc:271-282 | the cursor moves to the next octet boundary and the buffer is kept |
| `BitRefs.BitRef.AlignBytesZero` | lib/src/asn1/asn1_utils.cc:333-346 | the same as writing zero bits up to the octet boundary |
| `BitRefs.BitRef.AdvanceBits` | lib/src/asn1/asn1_utils.cc:285-298 | the cursor skips the bits exactly when they are there, otherwise it stays; the buffer is kept |
| `Fields.FieldsRoundTrip` | lib/src/asn1/asn1_utils.cc:147-205 | any sequence of fields of up to 32 bits, packed from any bit offset with enough room, is returned value by value by unpacking the same widths, ending at the same cursor |
| `Fields.WideFieldRoundTrip` | lib/src/asn1/asn1_utils.cc:193-198 | in every width the encoder writes and the decoder reads with defined shifts, a value comes back exactly when it is below 2^32 |
| `Fields.WideFieldLost` | lib/src/asn1/asn1_utils.cc:193-198 | the value 2^32 in 33 bits does not come back |
| `Fields.PackFields` | lib/src/asn1/asn1_utils.cc:147-176 | a chain of checked packs succeeds exactly when all bits fit together, and leaves one write of all of them |
| `Fields.UnpackFields` | lib/src/asn1/asn1_utils.cc:178-205 | a chain of checked unpacks computes the abstract field reader, including where it stops on a short buffer |
| `Fields.PutEachIsPut` | lib/src/asn1/asn1_utils.cc:312-331 | octet-by-octet packs leave the same buffer and cursor as one write of the whole data |
| `Fields.PackBytesBound` | lib/src/asn1/asn1_utils.cc:312-331 | the bound check agrees with the room needed except for octet-aligned data that would fill the buffer exactly |
| `Fields.RunStaysClean` | lib/src/asn1/asn1_utils.cc:147-176 | after every run of packs, byte packs and alignments from an octet boundary the unused bits are zero, so both ways to align give the same buffer and cursor |
| `Fields.AdvanceSpoilsClean` | lib/src/asn1/asn1_utils.cc:285-298 | one skip over set bits makes the two ways to align differ |
| `Per.NumberRoundTrip` | lib/src/asn1/asn1_utils.cc:457-564 | section 10.5 of X.691: for ranges of up to 2^20 values, unaligned and in all three aligned regimes, the decoder returns every number of the range and stops where its encoding ends |
| `Per.WidthDecides` | lib/src/asn1/asn1_utils.cc:468-473 | for any range: whatever width both sides compute for an unaligned number, it comes back if and only if it fits that width |
| `Per.WideRangeLost` | lib/src/asn1/asn1_utils.cc:468-473 | the number 2^24 of the range from 0 to 2^24, written in the 24 bits that the float logarithm gives, is read as zero |
| `Per.PackConstrainedWholeNumber` | lib/src/asn1/asn1_utils.cc:457-495 | appends the encoding in the regime of the range; out of bounds is refused without a change; in the unaligned form a full buffer is not reported |
| `Per.UnpackConstrainedWholeNumber` | lib/src/asn1/asn1_utils.cc:523-564 | computes the abstract decoder in every regime and leaves the buffer alone |
| `WireLayout.BitFieldNumber` | lib/src/asn1/asn1_utils.cc:468-478 | up to 255 values, or unaligned: the number in the least width that holds the range, most significant bit first |
| `WireLayout.OctetNumber` | lib/src/asn1/asn1_utils.cc:479-485 | aligned, 256 values: one octet; up to 65536 values: two octets; on an octet boundary |
| `WireLayout.PrefixedNumber` | lib/src/asn1/asn1_utils.cc:486-492 | aligned, more than 65536 values: two bits with the octets less one, then the one, two or three octets that the number needs, on an octet boundary |
| `WireLayout.OctetCountLeast` | lib/src/asn1/asn1_utils.cc:486-491 | the octets of that form are the least number that holds the value |
| `WireLayout.DecodedInRange` | lib/src/asn1/asn1_utils.cc:535-564 | on any input the unaligned decoder returns numbers of the range only, and the aligned one does not check |
| `WireLayout.SmallNumber` | lib/src/asn1/asn1_utils.cc:590-615 | a zero bit and six bits; larger numbers are announced by a one bit, which the decoder refuses |
| `WireLayout.LengthOctets` | lib/src/asn1/asn1_utils.cc:729-761 | one octet below 128, two octets from 0x8000 on below 16384, three octets headed by two ones up to 65536 in the aligned variant only, refusal of all others |
| `WireLayout.FragmentsRefused` | lib/src/asn1/asn1_utils.cc:763-803 | on any input both decoders refuse a length headed by two ones |
| `Per.SmallRoundTrip` | lib/src/asn1/asn1_utils.cc:590-615 | section 10.6 of X.691: exactly the numbers up to 63 are encoded, and exactly these are decoded, to themselves |
| `Per.PackNormSmall` | lib/src/asn1/asn1_utils.cc:590-600 | appends the normally small encoding and reports the numbers it does not support and a full buffer |
| `Per.UnpackNormSmall` | lib/src/asn1/asn1_utils.cc:602-615 | computes the abstract decoder of normally small numbers |
| `Per.LengthRoundTrip` | lib/src/asn1/asn1_utils.cc:729-803 | section 10.9 of X.691: a length that was accepted is decoded again if and only if it is below 16384, in both variants and from any offset |
| `Per.LongLengthLost` | lib/src/asn1/asn1_utils.cc:729-803 | the aligned length 16384 is accepted and its encoding is rejected |
| `Per.PackLength` | lib/src/asn1/asn1_utils.cc:729-761 | writes the length determinant of the form its size calls for, on the next octet boundary in the aligned variant, where the bits stepped over are kept; from a clean cursor these are the padding of the encoding; all error cases |
| `Per.UnpackLength` | lib/src/asn1/asn1_utils.cc:763-803 | computes the abstract length decoder, including what it leaves behind on failure |
| `OpenCut.MessageRoundTrip` | lib/src/asn1/asn1_utils.cc:1424-1468 | for every message with values in range whose open types, nested to any depth, fit their side buffers, every buffer and position: packing reports success and unpacking returns the message and the same cursor if and only if there is room for the bits that carry something, which is the encoding less what trails of lengths and padding of open types; earlier bits are kept |
| `OpenCut.PackBounded` | lib/src/asn1/asn1_utils.cc:1432-1455 | in any room, packing that reports success has written the encoding as far as it fits, and it reports success whenever the bits that carry something fit |
| `OpenCut.DecodeBounded` | lib/src/asn1/asn1_utils.cc:1457-1468 | an encoding that stands in a buffer as far as the buffer goes is decoded to its message if and only if the bits that carry something stand there |
| `OpenCut.AcceptedButLost` | lib/src/asn1/asn1_utils.cc:1432-1455 | an open type around any octet, packed into a buffer of one octet: success is reported and the message cannot be read back |
| `NestedSplice.NestedSpliceLost` | lib/src/asn1/asn1_utils.cc:1432-1455 | 4094 octets in two open types overflow the side buffer of the outer one: in any room success is reported and the decoder ends behind the message |
| `OpenType.EncPhase` | lib/src/asn1/asn1_utils.cc:1424-1455 | an encoding depends on its position only through the offset in an octet, so alignment in a side buffer coincides with alignment in the final stream at every depth |
| `OpenType.LengthEndsAligned` | lib/src/asn1/asn1_utils.cc:729-761 | an aligned length determinant ends on an octet boundary, where the body of an open type is spliced in |
| `OpenType.PackAllIsEnc` | lib/src/asn1/asn1_utils.cc:1424-1455 | packing in bounded buffers emits the unbounded encoding whenever the values are in range and everything fits |
| `OpenType.DecodeEncoded` | lib/src/asn1/asn1_utils.cc:1457-1468 | wherever the encoding of a message stands, the decoder of its shape returns it and stops behind it |
| `OpenType.UnknownTailSkipped` | lib/src/asn1/asn1_utils.cc:1457-1468 | a decoder that knows only the first fields of a body returns them and resynchronises behind the open type if and only if the rest of the body with its padding has at most 32 bits |
| `OpenType.PackGuard.constructor` | lib/src/asn1/asn1_utils.cc:1424-1430 | the caller's cursor is redirected to the start of a side buffer of 4096 octets, the old cursor is saved |
| `OpenType.PackGuard.Close` | lib/src/asn1/asn1_utils.cc:1432-1455 | the caller's cursor is back in its buffer and exactly length, body and padding of the open type were written behind the saved position |
| `OpenType.PackMessage` | lib/src/asn1/asn1_utils.cc:1424-1455 | the recursive packer over real cursors and nested guards emits what the bounded specification says and reports what it says |
| `OpenType.UnpackMessage` | lib/src/asn1/asn1_utils.cc:1457-1468 | the recursive unpacker computes the abstract decoder and leaves the buffer alone |
| `OpenType.PackOctetString` | lib/src/asn1/asn1_utils.cc:1020-1028 | an unbounded octet string is its length determinant and its octets, stopping at the first failure |
| `WireLayout.OpenOctets` | lib/src/asn1/asn1_utils.cc:1432-1455 | an open type is the number of octets of its body, the body, and zeros up to the octet |
| `WireLayout.StringOctets` | lib/src/asn1/asn1_utils.cc:1020-1028 | an octet string is its length determinant and its octets |
| `ExtGroups.GroupsRoundTrip` | lib/src/asn1/asn1_utils.cc:1353-1422 | a flag vector is accepted if and only if some flag is set and the last one is among the first 64; then a decoder supporting any number of groups recovers it padded with false |
| `WireLayout.GroupFlags` | lib/src/asn1/asn1_utils.cc:1353-1370 | seven bits with the number of flags less one, then the flags in order up to the last one set |
| `ExtGroups.SkipGroupIff` | lib/src/asn1/asn1_utils.cc:1395-1403 | an unknown group is skipped to its end if and only if its body has at most four octets |
| `ExtGroups.SkipGroupsLands` | lib/src/asn1/asn1_utils.cc:1395-1403 | with bodies of that size the decoder lands behind the last unknown group, for any choice of groups present |
| `ExtGroups.ExtensionsPassed` | lib/src/asn1/asn1_utils.cc:1353-1422 | from the packed flags to the end of the extensions: the flags are recovered and the destructor passes every unknown group of up to four octets, for any number supported |
| `ExtGroups.FiveOctetsNotSkipped` | lib/src/asn1/asn1_utils.cc:1395-1403 | an unknown group of five octets is not passed |
| `ExtGroups.GroupsPacker.Set` | lib/src/asn1/asn1_utils.cc:1343-1351 | the vector grows to the index and new flags are false; all others are kept if the vector has the capacity or grows out of its first 16 places for the first time |
| `ExtGroups.GroupsPacker.Count` | lib/src/asn1/asn1_utils.cc:1353-1360 | the backward loop finds one more than the index of the last set flag |
| `ExtGroups.GroupsPacker.Pack` | lib/src/asn1/asn1_utils.cc:1353-1370 | count and flags are emitted as specified, with the wrap-around of the count of an empty vector refused |
| `ExtGroups.GroupsUnpacker.Unpack` | lib/src/asn1/asn1_utils.cc:1405-1422 | computes the abstract decoder: count, resized vector and flags, and on failure the partial count and flags left behind |
| `ExtGroups.CountWithinVector` | lib/src/asn1/asn1_utils.cc:1395-1422 | on any input, the count left behind exceeds the vector if and only if the buffer ends inside the six bits of a count that already stands for more than the groups supported |
| `ExtGroups.CountBeyondVector` | lib/src/asn1/asn1_utils.cc:1395-1422 | a buffer that ends behind the first bit of a count leaves 32 groups counted in a vector of one |
| `ExtGroups.GroupsUnpacker.Close` | lib/src/asn1/asn1_utils.cc:1395-1403 | the destructor skips every present group from the first unsupported one on, for a count within the vector |
| `BitString.BitfieldRoundTrip` | lib/src/asn1/asn1_utils.cc:1109-1193 | a bit field is read back to the same octets if and only if its unused bits were zero |
| `BitString.NumberBits` | lib/src/asn1/asn1_utils.cc:1195-1209 | packing the octets of `from_number(x, n)` as a bit field emits the same bits as `pack(x, n)` |
| `BitString.FromNumber` | lib/src/asn1/asn1_utils.cc:1195-1209 | the in-place loop fills exactly the octets of the number, least significant first and cut to the width, and touches no others; widths above 64 change nothing |
| `BitString.WidthsAgree` | lib/src/asn1/asn1_utils.cc:1101-1166 | the prefix widths of encoder and decoder agree exactly when `ub - lb` is not a power of two, and differ by at most one |
| `BitString.PrefixRoundTrip` | lib/src/asn1/asn1_utils.cc:1068-1166 | an accepted length comes back with the cursor behind its prefix if and only if both sides use the same prefix for the bounds |
| `WireLayout.SizePrefix` | lib/src/asn1/asn1_utils.cc:1068-1106 | the extension bit is set exactly out of bounds; then nothing for a fixed size, the size above the lower bound in the least width for `ub - lb`, or a length determinant; the two refusals |
| `BitString.PowerOfTwoBoundsLost` | lib/src/asn1/asn1_utils.cc:1068-1166 | for the bounds 0 and 4 every length is accepted and none comes back |
| `BitString.StringRoundTrip` | lib/src/asn1/asn1_utils.cc:1068-1193 | an accepted bit string comes back if and only if the prefixes agree, the unused bits are zero and it has at most 65536 bits |
| `BitString.LargeBoundsDisagree` | lib/src/asn1/asn1_utils.cc:1142-1166 | for an upper bound of 65536 or more the decoder's length determinant never reads the encoder's prefix |
| `BitString.OtherWidthsDisagree` | lib/src/asn1/asn1_utils.cc:1142-1166 | a prefix of any width other than one or two octets is not read by the decoder's length determinant, which covers all bounds further apart than 2^20 |
| `BitString.PackBitString` | lib/src/asn1/asn1_utils.cc:1130-1140 | prefix and bit field are emitted as specified, with every refusal |
| `BitString.UnpackBitString` | lib/src/asn1/asn1_utils.cc:1142-1193 | computes the abstract decoder of the bit string |
| `Json.JsonWriter.WriteValue` | lib/src/asn1/asn1_utils.cc:1474-1562 | the calls for a value tree append its text, restore the indentation and leave a comma pending |
| `Json.JsonWriter.WriteFieldname` | lib/src/asn1/asn1_utils.cc:1476-1485 | the pending separator, the indentation only behind one, and the name only when there is one |
| `JsonParse.WriterOutputParses` | lib/src/asn1/asn1_utils.cc:1474-1562 | the text of a value tree parses back to that tree with nothing left if and only if its strings and names are clean, its members have names and its elements have none |
| `JsonParse.WriterOutputLost` | lib/src/asn1/asn1_utils.cc:1474-1562 | a string with a quote and a member without a name are printed as text that is not JSON for them |
| `JsonParse.ValueRoundTrip` | lib/src/asn1/asn1_utils.cc:1487-1557 | the same inside any text that may follow and at any indentation |
| `JsonParse.KidsRoundTrip` | lib/src/asn1/asn1_utils.cc:1476-1485 | members and elements come back in order from commas between them and nowhere else |
| `JsonParse.BlockText` | lib/src/asn1/asn1_utils.cc:1476-1557 | the text of objects and arrays: quoted names before a colon, one member to a line, two spaces deeper than the brackets, commas between |
| `JsonParse.StringRoundTrip` | lib/src/asn1/asn1_utils.cc:1487-1491 | a string literal comes back if and only if it has no quote, backslash or control character |
| `JsonParse.IntRoundTrip` | lib/src/asn1/asn1_utils.cc:1498-1502 | every integer is read back from its decimal text |
| `Nas.PatchSparesBody` | lib/src/asn1/nas_5g_ies.cc:414-454 | for every position, header and body: writing the header late leaves the body intact, and the same buffer as writing both in order, if and only if the body has only zeros up to the end of the octet in which the header ends |
| `Nas.PatchedLengthReadBack` | lib/src/asn1/nas_5g_ies.cc:414-454 | behind a length octet on an octet boundary a body of any size stays intact, and its size in octets is read back if and only if it is at most 255 |
| `Nas.PatchedOffBoundary` | lib/src/asn1/nas_5g_ies.cc:414-454 | one bit off the boundary a late length octet damages an octet of ones |
| `Nas.PatchLength` | lib/src/asn1/nas_5g_ies.cc:446-453 | the write through the saved copy changes only the reserved length and the first cursor sees head and body |
| `Nas.EntryRoundTrip` | lib/src/asn1/nas_5g_ies.cc:3335-3402 | every S-NSSAI of a supported type with values in range comes back and the cursor is behind it |
| `Nas.EntryConsumes` | lib/src/asn1/nas_5g_ies.cc:3372-3402 | on any input a successful entry takes two to nine octets, which is why the list loop ends |
| `WireLayout.EntryOctets` | lib/src/asn1/nas_5g_ies.cc:3335-3368 | the length octet counts the octets behind it; slice type, differentiator and mapped values stand in their octets, for each of the four kinds |
| `WireLayout.EntryLengths` | lib/src/asn1/nas_5g_ies.cc:3372-3402 | on any input an entry is accepted with a length of one, two, four or eight octets only |
| `Nas.NssaiRoundTrip` | lib/src/asn1/nas_5g_ies.cc:612-650 | decoding a packed list returns the same entries in order, behind the whole list, if and only if it takes 2 to 144 octets |
| `WireLayout.NssaiOctets` | lib/src/asn1/nas_5g_ies.cc:612-631 | the list is its entries one after the other behind the number of their octets, modulo 256 |
| `WireLayout.NssaiLengths` | lib/src/asn1/nas_5g_ies.cc:635-642 | on any input a list is accepted with an announced length of 2 to 144 octets only |
| `Nas.LongListLost` | lib/src/asn1/nas_5g_ies.cc:612-650 | 29 entries of nine octets: the packer accepts the 261 octets as 5, the decoder does not return them |
| `Nas.ListStops` | lib/src/asn1/nas_5g_ies.cc:643-648 | on any input the list decoder ends less than nine octets, the longest entry, behind the announced length |
| `Nas.PackEntry` | lib/src/asn1/nas_5g_ies.cc:3335-3368 | length and fields of the entry are written; success exactly for supported types that fit |
| `Nas.UnpackEntry` | lib/src/asn1/nas_5g_ies.cc:3372-3402 | computes the abstract entry decoder on any input |
| `Nas.Nssai.Pack` | lib/src/asn1/nas_5g_ies.cc:612-631 | length octet and entries are written; success exactly when all types are supported, everything fits and the length modulo 256 is 2 to 144 |
| `Nas.Nssai.Unpack` | lib/src/asn1/nas_5g_ies.cc:635-650 | appends exactly the decoded entries to the list and terminates on any input |
| `NasIdentity.IdentityRoundTrip` | lib/src/asn1/nas_5g_ies.cc:74-190 | section 9.11.3.4 of TS 24.501: SUCI, 5G-GUTI, IMEI and IMEISV in range come back, whatever the spare bits were, if and only if the content length fits 16 bits |
| `NasIdentity.LongIdentityLost` | lib/src/asn1/nas_5g_ies.cc:74-190 | a SUCI with any scheme output of 65528 octets is in range and does not come back |
| `NasIdentity.RestRoundTrip` | lib/src/asn1/nas_5g_ies.cc:215-392 | nibble swaps, digit order and the type octet shared with the first digit or the SUPI format are undone, for each kind of identity |
| `WireLayout.TypeOfIdentity` | lib/src/asn1/nas_5g_ies.cc:74-126 | the length counts the octets behind it modulo 65536; the type code is 1, 2, 3 and 5 for SUCI, 5G-GUTI, IMEI and IMEISV, in the low bits of the next octet |
| `WireLayout.TypeDecides` | lib/src/asn1/nas_5g_ies.cc:130-190 | on any input the type code alone decides which kind of identity is returned |
| `WireLayout.PlmnOctets` | lib/src/asn1/nas_5g_utils.cc:50-62 | each digit of country and network code stands in its half of the three octets behind the type |
| `WireLayout.SuciOctets` | lib/src/asn1/nas_5g_ies.cc:215-235 | format, routing digits, spare half octet, scheme, key and scheme output of a SUCI stand in their places |
| `WireLayout.GutiOctets` | lib/src/asn1/nas_5g_ies.cc:254-266 | region, set, pointer and temporary identity of a 5G-GUTI stand in their places |
| `WireLayout.DigitOctets` | lib/src/asn1/nas_5g_ies.cc:278-369 | first digit and odd/even flag share the type octet, octet k holds digit 2k in the high and digit 2k - 1 in the low half, a filler precedes the last digit of an IMEISV |
| `NasIdentity.PackIdentity` | lib/src/asn1/nas_5g_ies.cc:74-126 | length and content are written in place, the spare bits keep what the buffer held; success exactly when the room suffices |
| `NasIdentity.PackSuci` | lib/src/asn1/nas_5g_ies.cc:215-235 | the writes around skipped bits compose to the SUCI layout with the scheme output behind it |
| `NasIdentity.UnpackIdentity` | lib/src/asn1/nas_5g_ies.cc:130-190 | computes the abstract identity decoder on any input |
| `Mbsfn.EveryRunIsSafe` | lib/examples/pdsch_enodeb.c:662-704 | in every interleaving and under any grants, with all histories read off the steps of the run: one token, no common access to `data_mbms`, blocks found are the blocks published in order and once each, each cleared once, blocks (each of the size in force at the read before it) and leftover are the bytes received since the last reset, the leftover is shorter than a block |
| `Mbsfn.RunTells` | lib/examples/pdsch_enodeb.c:662-704 | grant, block size, sizes of the blocks, bytes received since the last empty read and all counts in the state are those that the steps of the run give |
| `Mbsfn.ReadSamplesGrant` | lib/examples/pdsch_enodeb.c:668-698 | a read works with the block size of the last grant set up before it, and an empty read drops what was left over |
| `Mbsfn.ThreadsGoOn` | lib/examples/pdsch_enodeb.c:667-704 | in every run each thread has its next step, except the network thread at an empty semaphore; reads go up to 1048576 bytes |
| `Mbsfn.SteadyGrant` | lib/examples/pdsch_enodeb.c:668-676 | while the transmit loop keeps to one grant every block has the size of that grant |
| `Mbsfn.BlockedProducerIsFreed` | lib/examples/pdsch_enodeb.c:679-692 | wherever a run leaves the network thread blocked, the transmit loop alone frees it within five steps and without touching what it waits to copy |
| `Mbsfn.EncodedUnderPattern` | lib/examples/pdsch_enodeb.c:961-976 | what is encoded is the published block exactly when that block already is the test pattern on its first bytes, one for every eight bits of the grant; where the grant covers the block nothing else is ever sent |
| `Mbsfn.ReceivedButNotSent` | lib/examples/pdsch_enodeb.c:961-976 | seven steps from the start publish a byte of one and encode a byte of zero |
| `Mbsfn.RunKeepsInv` | lib/examples/pdsch_enodeb.c:977-986 | token, framing and hand-over invariants are kept along every run |
| `Mbsfn.StepKeepsToken` | lib/examples/pdsch_enodeb.c:889-895 | semaphore value, producer holding, packet ready and consumer releasing add up to one before and after every step of either thread |
| `Mbsfn.StepKeepsFraming` | lib/examples/pdsch_enodeb.c:667-698 | every step keeps published blocks plus pending bytes equal to the bytes received since the last reset |
| `Mbsfn.StepKeepsHanding` | lib/examples/pdsch_enodeb.c:966-986 | every step keeps the order and the count of blocks published, found, encoded and cleared |
| `Mbsfn.Framer.Receive` | lib/examples/pdsch_enodeb.c:668-696 | on the real buffer, the blocks delivered and the bytes left at the front are the bytes left before and the bytes read, and fewer than a block are left |
| `Mbsfn.BlockBytes` | lib/examples/pdsch_enodeb.c:672-675 | the least number of bytes that holds the transport block, and one for an empty one |
| `Bearers.RunStaysSound` | lib/src/common/bearer_manager.cc:30-74 | over every run of add, remove and reset each LCID entry names a live bearer on that LCID, so the LCID lookup is always defined |
| `Bearers.ExactIffNoClash` | lib/src/common/bearer_manager.cc:30-57 | the two maps stay inverse throughout a run if and only if no bearer is added on the LCID of a live one |
| `Bearers.ExactLookups` | lib/src/common/bearer_manager.cc:64-74 | where the maps are inverse the two lookups undo each other, and an LCID has an entry exactly when a live bearer uses it |
| `Bearers.SharedLcidIsLost` | lib/src/common/bearer_manager.cc:36-50 | with two bearers on one LCID, removing either leaves the other live but not found by LCID |
| `Bearers.AddThenRemove` | lib/src/common/bearer_manager.cc:30-51 | removing what was just added restores both maps if and only if the LCID had no entry before |
| `Bearers.AnswersAfterAdd` | lib/src/common/bearer_manager.cc:30-39 | after an addition the new bearer is found by identity, and by LCID only if no bearer had that LCID before; every other answer is what it was |
| `Bearers.AnswersAfterRemove` | lib/src/common/bearer_manager.cc:41-51 | after a removal neither identity nor LCID is found; every other answer is what it was |
| `Bearers.UsersAreIndependent` | lib/src/common/bearer_manager.cc:125-202 | after any run every user answers as if the operations on all other users had not happened |
| `Bearers.EveryUserIsSound` | lib/src/common/bearer_manager.cc:125-202 | every user reachable in the eNodeB has sound maps |
| `Bearers.UeBearers.AddBearer` | lib/src/common/bearer_manager.cc:30-39 | refuses a known identity without a change; otherwise the bearer is added, an LCID entry already there is kept, and the maps stay sound |
| `Bearers.UeBearers.RemoveBearer` | lib/src/common/bearer_manager.cc:41-51 | refuses an unknown identity; otherwise the bearer and the entry of its LCID go, and the maps stay sound |
| `Bearers.UeBearers.GetByLcid` | lib/src/common/bearer_manager.cc:70-74 | a valid answer is a live bearer on that LCID, found by its identity too |
| `Bearers.EnbBearers.AddBearer` | lib/src/common/bearer_manager.cc:125-148 | a new user gets maps of its own; the maps of all other users are unchanged |
| `Bearers.EnbBearers.RemoveBearer` | lib/src/common/bearer_manager.cc:150-163 | only the named user changes, an unknown user changes nothing |
| `Bearers.EnbBearers.RemoveUser` | lib/src/common/bearer_manager.cc:165-175 | only the named user goes |
| `Bearers.EnbBearers.GetByLcid` | lib/src/common/bearer_manager.cc:186-193 | the LCID lookup of the user, with an unknown user answering like one without bearers |
| `Bearers.EnbBearers.GetById` | lib/src/common/bearer_manager.cc:195-202 | the identity lookup of the user, invalid for unknown users and identities |
| `Bearers.EnbBearers.HasActive` | lib/src/common/bearer_manager.cc:177-184 | true exactly for a live bearer of a known user |
| `Cells.CheckCells` | srsenb/src/enb_cfg_parser.cc:961-976 | succeeds if and only if RF ports and cell identities are pairwise distinct, for lists of any length |
| `Cells.KeptAt` | srsenb/src/enb_cfg_parser.cc:1289-1302 | a secondary cell of the list is kept, directly behind what is kept of those before it |
| `Cells.KeptFrom` | srsenb/src/enb_cfg_parser.cc:1289-1302 | whatever is kept is one of these, at that place: with the row above, the order-preserving filter |
| `Cells.EnbConfig.FilterScells` | srsenb/src/enb_cfg_parser.cc:1289-1302 | the erasing loop leaves the filter of the list; it fails if and only if the cell refers to itself, with the list filtered up to the first such entry; no other cell changes |
| `Cells.EnbConfig.CompleteCell` | srsenb/src/enb_cfg_parser.cc:1255-1302 | succeeds if and only if each frequency is configured or in its table and there is no self-reference; the PHY entry has the fields of the cell, downlink frequency from the downlink table and uplink frequency from the uplink table |
| `Cells.EnbConfig.Build` | srsenb/src/enb_cfg_parser.cc:1255-1317 | stops at the first unusable cell, with everything before it done and everything behind it untouched; otherwise one PHY entry per cell in order |
| `Cells.EnbConfig.Configure` | srsenb/src/enb_cfg_parser.cc:961-1317 | check, refusal of an empty list and loop succeed exactly on a list of distinct cells with known frequencies and no self-reference; then every secondary cell is another cell of the list and each PHY entry has identity, port, root sequence, preambles, base cell and both frequencies of its cell |
| `Cells.TablesApart` | srsenb/src/enb_cfg_parser.cc:1266-1287 | the downlink frequency does not depend on the uplink table, nor the uplink frequency on the downlink table |
| `LegacyBits.PackThenUnpack` | lib/src/asn1/liblte_common.cc:73-135 | for 8k + r bits: the first 8k bits, then for r > 0 the last r bits behind 8 - r zeros |
| `LegacyBits.PackedBackIff` | lib/src/asn1/liblte_common.cc:73-135 | the bits come back unchanged if and only if their number is a multiple of eight |
| `LegacyBits.UnpackThenPack` | lib/src/asn1/liblte_common.cc:93-120 | unpacking and packing bytes is the identity |
| `LegacyBits.Pack` | lib/src/asn1/liblte_common.cc:73-120 | the loop fills exactly the bytes of the bit string and touches no others |
| `LegacyBits.Unpack` | lib/src/asn1/liblte_common.cc:93-135 | the loop fills exactly the bits of the bytes and touches no others |
| `LegacyBits.ValueToBits` | lib/src/asn1/liblte_common.cc:40-48 | the bits of the value, most significant first, in their place only |
| `LegacyBits.BitsToValue` | lib/src/asn1/liblte_common.cc:55-66 | the number that the bits denote |

## Left out

- BitRefs.BitRef.Unpack: widths that would shift a 32-bit value by 32 or more are excluded, because the shift is undefined in C++.
- Per.PackConstrainedWholeNumber: ranges of more than 2^20 values are excluded, because the width that the float logarithm gives there depends on its rounding; what any width does is in Per.WidthDecides.
- Per.NumberRoundTrip: the same.
- Per.UnpackConstrainedWholeNumber: the same; and it does not model the wrap-around of a narrow integer type when a malformed aligned value exceeds the range.
- OpenCut.MessageRoundTrip: values out of range and bodies over the side buffer are covered by the contract of the packer and by NestedSplice.NestedSpliceLost only, because bits behind a cut can bring the decoder back in step; an aligned message on an unclean cursor is not covered, because the code then keeps old bits in its padding.
- OpenCut.PackBounded: the same.
- OpenType.PackMessage: an aligned start on an unclean cursor is excluded for the same reason.
- OpenType.PackOctetString: the same.
- OpenType.PackGuard.Close: the same.
- Fields.PackFields: widths of 64 and more, which `pack` refuses, are covered by BitRefs.BitRef.Pack only; no field of the code has one.
- Fields.UnpackFields: 64-bit targets with widths above 32 are covered by BitRefs.BitRef.Unpack only.
- Nas.PackEntry: a start off the octet boundary is excluded; what a late length does there is in Nas.PatchSparesBody.
- Nas.Nssai.Pack: the same.
- NasIdentity.PackIdentity: the same.
- NasIdentity.PackSuci: the same.
- ExtGroups.GroupsUnpacker.Close: a count beyond the vector, which a failed read can leave, is excluded, because the code then reads memory that is not its own.
- ExtGroups.GroupsUnpacker.Unpack: the vector keeps its flags when it grows; what the second growth of the code's vector loses is overwritten by the flags read, unless the buffer ends before.
- NasIdentity.UnpackIdentity: the skip over the four spare bits of a SUCI is a four-bit read whose value is ignored; the cursor after a failure is not stated.
- LegacyBits.BitsToValue: array elements are booleans; elements other than 0 and 1 are not modelled.
- Unconstrained and semi-constrained integers, printable strings and aligned bit strings of variable length.
- 5G-S-TMSI, MAC address and EUI-64 identities, and the other information elements, which follow the same patterns.
- The non-MBSFN mode of the handshake, where the transmit loop does not wait for the ready flag.
- The exit of the network thread on a read error, and bytes of `data_mbms` behind the block when a grant is larger than it.
- PSS collision warnings between cells and the other derived arguments of the eNodeB.
- The read/write lock around the bearer maps of the UE.
- Hexadecimal and decimal helpers, choice and enumeration helpers, and the generated ASN.1 message types.
- Signal processing, radio, configuration parsing, metrics and packet capture.
