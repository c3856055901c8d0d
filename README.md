# NTP packet codec and leap-second table codec

This project models two binary codecs from an NTP toolkit and proves their properties in Dafny.

**NTP packets.** The first codec is the 48-byte NTP packet of section 7.3 of RFC 5905.
- `Packet.Bytes` serialises the record big-endian in field order.
- `BytesToPacket` reads it back. A buffer shorter than 48 bytes is an error, returned with the zero packet.
- `ValidSettingsFormat` checks the version subfield of the packed first byte.

Beside the codec sit two groups of integer arithmetic:
- conversion between Unix instants and NTP 32.32 timestamps, across an epoch shift of 2208988800 s;
- the on-wire clock arithmetic of section 8 of RFC 5905: round-trip delay, clock offset and corrected time.

Instants are integer nanoseconds.

**Leap-second tables.** The second codec is the leap-second table, stored in the TZif format of section 3 of RFC 8536.
- **Parsing (`parseVx`).**
  - A version 1 file is one block with 4-byte leap times.
  - A version '2'/'3' file has a first block, which is read and discarded, then a second block with 8-byte times. The footer is not read.
  - The errors are distinct: bad magic or a short header, an unsupported version, and a table with no leap records.
- **Writing.** `Write`, `prepareHeader`, `writePreData` and `writePostData` emit a version '2' file with both blocks and the newline-delimited zone-name footer.
- **Latest.** `Latest` picks the last record that is not in the future.

**Modules.**
- `BigEndian` (big_endian.dfy): fixed-width integers and their network-order encodings.
- `Wrappers` (wrappers.dfy): `Option` and `Result`.
- `NtpPacket` (ntp_packet.dfy): the packet, its codec and the settings check.
- `NtpClock` (ntp_clock.dfy): timestamp conversion and the on-wire arithmetic.
- `NtpVectors` (ntp_vectors.dfy): the exact packets, bytes and timestamps the NTP tests use.
- `LeapSecTz` (leapsectz_format.dfy): the records, the header, and the meaning of a table file and of what the writer emits, as pure functions. The write→parse round trip is proved here.
- `LeapSecTzReader` (leapsectz_reader.dfy): the imperative reader.
  - A `Reader` class holds a cursor over the bytes.
  - `ParseVx` and its helpers consume that cursor section by section and loop over the records.
  - `FindLatest` and `Latest` scan for the leap second in effect.
  - Each method is proved to compute the function of `LeapSecTz` that defines it.
- `LeapSecTzWriter` (leapsectz_writer.dfy): an append-only `Buffer` class and the writer methods that append to it. They are proved to emit exactly `LeapSecTz.Encoding`.
- `LeapSecTzVectors` (leapsectz_vectors.dfy): the exact byte strings of the leap-second tests.

The implementation files of both packages are not part of this model. The behaviour modelled is the one that the two test files pin down, byte for byte, together with the formats' RFCs; where the tests leave a choice open (the settings check, the rounding of NTP fractions, the time scale of a leap record and the comparison in `Latest`), the model says under "## Left out" which rule it follows.

## Model

| member | source | states |
|---|---|---|
| BigEndian.DecodeEncodeU32 | ntp/protocol/ntp_test.go:55-69 | decoding a big-endian 32-bit word undoes encoding it (65536 goes out as 0,1,0,0 and comes back) |
| BigEndian.EncodeDecodeU32 | ntp/protocol/ntp_test.go:391-403 | encoding a decoded 4-byte word reproduces the 4 bytes |
| BigEndian.DecodeEncodeU64 | leapsectz/leapsectz_test.go:72-77 | an 8-byte leap time, upper half first, decodes back to the 64-bit value |
| BigEndian.EncodeDecodeU64 | leapsectz/leapsectz_test.go:72-77 | encoding a decoded 8-byte time reproduces the bytes |
| BigEndian.I8RoundTrip | ntp/protocol/ntp_test.go:54-69 | a signed precision survives its two's complement byte (-6 is byte 250) |
| BigEndian.I8OfByte | ntp/protocol/ntp_test.go:54-69 | reading a byte as a signed value inverts writing it |
| BigEndian.DecodeEncodeI32 | leapsectz/leapsectz_test.go:41-42 | the signed 32-bit leap count survives its encoding |
| BigEndian.EncodeDecodeI32 | leapsectz/leapsectz_test.go:41-42 | encoding a decoded signed count reproduces its 4 bytes |
| BigEndian.DecodeI32 | leapsectz/leapsectz_test.go:41-42 | a decoded count is negative exactly when the top bit of the first byte is set |
| NtpPacket.Bytes | ntp/protocol/ntp_test.go:129-135 | every encoded packet is exactly PacketSizeBytes = 48 bytes, with settings, stratum, poll and precision in the first four |
| NtpPacket.BytesToPacket | ntp/protocol/ntp_test.go:115-120 | decoding fails exactly when fewer than 48 bytes are given, and then yields the zero packet |
| NtpPacket.DecodeEncode | ntp/protocol/ntp_test.go:109-113 | decoding the encoding of any packet succeeds with that packet |
| NtpPacket.EncodeDecode | ntp/protocol/ntp_test.go:391-403 | whenever decoding succeeds, re-encoding the packet gives back exactly the first 48 input bytes |
| NtpPacket.DecodeReadsPrefixOnly | ntp/protocol/ntp_test.go:391-403 | bytes after the 48th never change the decoded packet |
| NtpPacket.PackSettings | ntp/protocol/ntp_test.go:137-143 | the leap indicator, version and mode packed into the first byte are read back unchanged |
| NtpPacket.UnpackPack | ntp/protocol/ntp_test.go:137-143 | every first byte is the packing of its three subfields |
| NtpPacket.ValidSettingsFormatIff | ntp/protocol/ntp_test.go:137-143 | a first byte is accepted if and only if it packs a version from 1 to 4, with any leap indicator and mode |
| NtpVectors.RequestEncoding | ntp/protocol/ntp_test.go:50-69 | the sample request encodes to exactly its 48 bytes, with precision -6 as byte 250 and root delay 65536 as 0,1,0,0 |
| NtpVectors.ResponseEncoding | ntp/protocol/ntp_test.go:72-90 | the sample response encodes to exactly its 48 bytes |
| NtpVectors.ResponseDecoding | ntp/protocol/ntp_test.go:109-113 | the response bytes decode to the sample response without error |
| NtpVectors.EmptyDecoding | ntp/protocol/ntp_test.go:115-120 | an empty buffer gives an error and the zero packet |
| NtpVectors.SettingsChecks | ntp/protocol/ntp_test.go:137-143 | settings 227 of the request is accepted and settings 0 of the bad request is refused; the response's 36, which these tests do not check, is accepted as well (version 4) |
| NtpPacket.ValidSettingsFormat | ntp/protocol/ntp_test.go:137-143 | no ensures of its own: ValidSettingsFormatIff characterises it and SettingsChecks pins the two tested bytes |
| NtpClock.Quot | ntp/protocol/ntp_test.go:208-214 | signed division rounds toward zero, so the remainder takes the sign of the dividend |
| NtpClock.Time | ntp/protocol/ntp_test.go:145-151 | NTP seconds are the whole seconds since 1900, modulo 2^32; the fraction is the sub-second remainder in 2^-32 units, rounded down |
| NtpClock.Unix | ntp/protocol/ntp_test.go:153-159 | the Unix second is the NTP second less 2208988800, and the nanoseconds are the fraction rounded down |
| NtpClock.UnixOfTime | ntp/protocol/ntp_test.go:153-159 | converting an instant of the first NTP era to NTP and back loses at most one nanosecond, and only downwards |
| NtpClock.TimeOfUnix | ntp/protocol/ntp_test.go:145-159 | converting an NTP timestamp to Unix and back keeps the seconds and loses at most 5 fraction units |
| NtpClock.Observe | ntp/protocol/ntp_test.go:161-174 | the four timestamps of an exchange differ by the forward delay plus the skew, the processing time, and the return delay minus the skew |
| NtpClock.DelayIsNetworkTime | ntp/protocol/ntp_test.go:208-214 | the round-trip delay is the forward plus the return delay, whatever the skew and the server processing time |
| NtpClock.DelayIgnoresConstantShift | ntp/protocol/ntp_test.go:176-206 | adding the same amount to T1 and T4, or to T2 and T3, leaves the delay unchanged |
| NtpClock.OffsetEstimate | ntp/protocol/ntp_test.go:208-214 | the offset is the true skew plus half the path asymmetry, truncated toward zero |
| NtpClock.SymmetricPathRecoversSkew | ntp/protocol/ntp_test.go:216-230 | on a symmetric path the offset equals the skew, and correcting T4 by it gives the server's clock |
| NtpClock.RoundTripDelay | ntp/protocol/ntp_test.go:161-206 | no ensures of its own: DelayIsNetworkTime and DelayIgnoresConstantShift state its properties, RoundTripDelayVectors the tested values |
| NtpClock.Offset | ntp/protocol/ntp_test.go:216-246 | no ensures of its own: OffsetEstimate, SymmetricPathRecoversSkew and OffsetErrorBound state its properties, OffsetVectors the tested values |
| NtpClock.CorrectTime | ntp/protocol/ntp_test.go:248-252 | no ensures of its own: SymmetricPathRecoversSkew states that it recovers the server clock on a symmetric path, CorrectTimeVector the tested value |
| NtpClock.OffsetErrorBound | ntp/protocol/ntp_test.go:232-246 | twice the offset error is at most the path asymmetry plus one |
| NtpVectors.TimeConversion | ntp/protocol/ntp_test.go:145-151 | Unix 1585147599 s 631495778 ns is NTP (3794136399, 2712253714) |
| NtpVectors.TimeVectorRounding | ntp/protocol/ntp_test.go:145-151 | the tested fraction is 2712253714.07 before rounding, so rounding down and rounding to nearest give the same 2712253714 |
| NtpVectors.UnixConversion | ntp/protocol/ntp_test.go:153-159 | NTP (3794136399, 2712253714) is Unix second 1585147599, one nanosecond short of 631495778 |
| NtpVectors.RoundTripDelayVectors | ntp/protocol/ntp_test.go:161-206 | 10 ms forward, 10 us at the server and 20 ms back give 30 ms of delay, also with a ±50 ms client clock shift |
| NtpVectors.OffsetVectors | ntp/protocol/ntp_test.go:216-246 | a symmetric 25 ms path gives offset 0; 10 ms forward and 20 ms back give -5 ms |
| NtpVectors.CorrectTimeVector | ntp/protocol/ntp_test.go:248-252 | correcting by an offset of -5 ms moves the instant 5 ms back |
| LeapSecTz.Time | leapsectz/leapsectz_test.go:241-245 | no ensures of its own: LeapAt and LeapAtTime state that it loses nothing (a record is rebuilt from its Unix time and count), LeapTimes the tested instants, including 1973-01-01 for the second record of leapsectz_test.go:108-109 |
| LeapSecTz.LeapAt | leapsectz/leapsectz_test.go:241-245 | the record for a leap second at a given Unix time and count has exactly that Unix time (the partner of LeapSecond.Time) |
| LeapSecTz.LeapAtTime | leapsectz/leapsectz_test.go:241-245 | a record is rebuilt from its Unix time and its count, so Time loses nothing |
| LeapSecTz.DecodeEncodeHeader | leapsectz/leapsectz_test.go:299-322 | the six counts survive their big-endian encoding in file order |
| LeapSecTz.EncodeLeap | leapsectz/leapsectz_test.go:57-60 | a record is 8 or 12 bytes and decodes back to itself, with its time cut to 32 bits in a narrow block |
| LeapSecTz.EncodeLeaps | leapsectz/leapsectz_test.go:337-357 | n written records take n times the record size |
| LeapSecTz.EncodeLeapsAt | leapsectz/leapsectz_test.go:337-357 | record k of the written records is the encoding of the k-th record |
| LeapSecTz.DecodeEncodeLeaps | leapsectz/leapsectz_test.go:324-370 | reading back written records gives them in order, whatever follows them |
| LeapSecTz.DecodeLeapsSnoc | leapsectz/leapsectz_test.go:82-111 | reading one more record appends it to the records read so far |
| LeapSecTz.EncodeLeapsSnoc | leapsectz/leapsectz_test.go:324-370 | writing one more record appends its bytes |
| LeapSecTz.NarrowAll | leapsectz/leapsectz_test.go:337-357 | narrowing keeps the length and cuts every time to 32 bits in a 4-byte block |
| LeapSecTz.NarrowWide | leapsectz/leapsectz_test.go:353-357 | an 8-byte block keeps the full times |
| LeapSecTz.ParseHeader | leapsectz/leapsectz_test.go:247-297 | a header is accepted exactly when it is complete, has the magic and a supported version; otherwise BadData, and UnsupportedVersion exactly when the magic is right and the version byte is unknown |
| LeapSecTz.ParseSections | leapsectz/leapsectz_test.go:29-43 | the leap records read are as many as the header declares, and the indicators after them are present |
| LeapSecTz.ParseBody | leapsectz/leapsectz_test.go:29-43 | a body yields LeapCnt records within the input, or Truncated |
| LeapSecTz.ParseBlock | leapsectz/leapsectz_test.go:82-91 | a parsed block lies within the input, starts with an accepted header and carries that header's version |
| LeapSecTz.Finish | leapsectz/leapsectz_test.go:113-143 | a table succeeds exactly when it has records, and an empty one gives NoLeapSeconds with no records |
| LeapSecTz.Parse | leapsectz/leapsectz_test.go:378-391 | an error always comes with an empty record list, and a success never has one |
| LeapSecTz.ParseHeaderErrors | leapsectz/leapsectz_test.go:247-297 | bad magic gives BadData; an unknown version byte gives UnsupportedVersion; a header cut short after a good version gives BadData |
| LeapSecTz.ParseConsumesBlocks | leapsectz/leapsectz_test.go:82-111 | the records of a version 1 file come from its one block; those of a later version come from the second block, which follows the first and fits in the input |
| LeapSecTz.DecodeLeapsPrefix | leapsectz/leapsectz_test.go:378-385 | records are read only from their own bytes |
| LeapSecTz.ParseBodyPrefix | leapsectz/leapsectz_test.go:378-385 | a body that parses is not affected by the bytes after it |
| LeapSecTz.ParseBlockPrefix | leapsectz/leapsectz_test.go:378-385 | a block that parses is not affected by the bytes after it |
| LeapSecTz.ParseFirstBlock | leapsectz/leapsectz_test.go:82-91 | a version 1 table is the table of its one block |
| LeapSecTz.ParseSecondBlock | leapsectz/leapsectz_test.go:93-111 | a version '2'/'3' table is the table of the block after the first |
| LeapSecTz.ParsePrefix | leapsectz/leapsectz_test.go:378-385 | once the block(s) a table's records come from parse, appending any bytes, such as a second copy of the file, leaves the result unchanged |
| LeapSecTz.PrepareHeader | leapsectz/leapsectz_test.go:202-219 | the written header is 44 bytes: magic, version, 15 zero bytes, then the counts 1, 1, leap count, 0, 1 and designation length, cut to 32 bits |
| LeapSecTz.PreData | leapsectz/leapsectz_test.go:221-231 | the local time type is six zero bytes, followed by the designation characters |
| LeapSecTz.PostData | leapsectz/leapsectz_test.go:233-239 | the indicators are two zero bytes |
| LeapSecTz.WrittenCounts | leapsectz/leapsectz_test.go:202-219 | counts that fit in 32 bits are written unchanged |
| LeapSecTz.BlockLayout | leapsectz/leapsectz_test.go:324-370 | a written block is 44 + 6 + designation + records + 2 bytes long, with its header counts and records where a reader looks for them |
| LeapSecTz.ParseBlockOf | leapsectz/leapsectz_test.go:29-43 | a block with a complete header and all declared sections parses to the records after the skipped sections, and its size counts every section |
| LeapSecTz.BlockParses | leapsectz/leapsectz_test.go:324-370 | a block laid out with the writer's counts parses to its records at the written size |
| LeapSecTz.ParseEncodedBlock | leapsectz/leapsectz_test.go:324-370 | a written block parses back to its records (32-bit times in the first block) at exactly its own size, whatever follows |
| LeapSecTz.Encoding | leapsectz/leapsectz_test.go:324-370 | no ensures of its own: WriteV2Vector pins its bytes, WriteParseRoundTrip states that parsing it gives the records back, and LeapSecTzWriter.Write is proved to emit it |
| LeapSecTz.WriteParseRoundTrip | leapsectz/leapsectz_test.go:181-200 | parsing a written table gives its records back; an empty table is written but refused with NoLeapSeconds |
| LeapSecTzReader.Reader.ReadFull | leapsectz/leapsectz_test.go:83-85 | a full read of n bytes succeeds exactly when n bytes remain and advances over them; otherwise nothing remains |
| LeapSecTzReader.ReadHeader | leapsectz/leapsectz_test.go:247-297 | reading the header computes ParseHeader of the remaining bytes and leaves the cursor after 44 bytes |
| LeapSecTzReader.ReadLeaps | leapsectz/leapsectz_test.go:82-111 | the record loop reads DecodeLeaps of the remaining bytes and advances past the records |
| LeapSecTzReader.ReadSections | leapsectz/leapsectz_test.go:82-111 | reads the records and the indicators as ParseSections defines |
| LeapSecTzReader.ReadBody | leapsectz/leapsectz_test.go:82-111 | reads the body as ParseBody defines and advances by the size it reports |
| LeapSecTzReader.ReadBlock | leapsectz/leapsectz_test.go:82-111 | reads a block as ParseBlock defines and leaves the cursor right after it |
| LeapSecTzReader.ParseVx | leapsectz/leapsectz_test.go:378-391 | the stateful parser computes Parse of the file's bytes, and an error comes with no records |
| LeapSecTzReader.LatestIn | leapsectz/leapsectz_test.go:181-200 | a result is one of the records and is not in the future |
| LeapSecTzReader.LatestInNone | leapsectz/leapsectz_test.go:181-200 | there is no result exactly when every record is in the future |
| LeapSecTzReader.LatestInIndex | leapsectz/leapsectz_test.go:181-200 | a result sits at an index after which every record is in the future |
| LeapSecTzReader.LatestInIsLast | leapsectz/leapsectz_test.go:181-200 | the result is the last record not in the future, and absent exactly when all are in the future |
| LeapSecTzReader.LatestIsGreatest | leapsectz/leapsectz_test.go:181-200 | in an ascending table the result has the greatest time among the past records |
| LeapSecTzReader.FindLatest | leapsectz/leapsectz_test.go:181-200 | the scan finds exactly LatestIn |
| LeapSecTzReader.LatestOf | leapsectz/leapsectz_test.go:165-200 | a success is a parsed record not in the future; NoPastLeapSecond means the table parsed and every record is in the future |
| LeapSecTzReader.Latest | leapsectz/leapsectz_test.go:165-200 | parsing with the cursor and scanning computes LatestOf |
| LeapSecTzReader.LatestOfWritten | leapsectz/leapsectz_test.go:181-200 | a written table answers the query from its own records: NoLeapSeconds when empty, otherwise the last past record or NoPastLeapSecond |
| LeapSecTzWriter.Buffer.Write | leapsectz/leapsectz_test.go:227-230 | appending to the buffer adds exactly the chunk at the end |
| LeapSecTzWriter.WritePreData | leapsectz/leapsectz_test.go:221-231 | appends exactly PreData of the designation |
| LeapSecTzWriter.WritePostData | leapsectz/leapsectz_test.go:233-239 | appends exactly two zero bytes |
| LeapSecTzWriter.WriteLeaps | leapsectz/leapsectz_test.go:337-357 | the record loop appends exactly EncodeLeaps of the records |
| LeapSecTzWriter.WriteBlock | leapsectz/leapsectz_test.go:324-360 | appends exactly one EncodeBlock: header, pre-data, records, post-data |
| LeapSecTzWriter.Write | leapsectz/leapsectz_test.go:324-376 | version '2' appends exactly Encoding (narrow block, wide block, footer); any other version fails with UnsupportedVersion and writes nothing |
| LeapSecTzVectors.LeapTimes | leapsectz/leapsectz_test.go:241-245 | the first record falls at Unix time 78796800 (1972-07-01T00:00:00Z), the second at 94694400 (1973-01-01T00:00:00Z) |
| LeapSecTzVectors.CountsDecode | leapsectz/leapsectz_test.go:29-43 | the count rows of the test files decode to LeapCnt 1, 2 and 0 with every other count 0 |
| LeapSecTzVectors.OneRecordDecodes | leapsectz/leapsectz_test.go:41-42 | 04 b2 58 00, 00 00 00 01 is the record (78796800, 1) |
| LeapSecTzVectors.NarrowRecordsDecode | leapsectz/leapsectz_test.go:57-60 | the first block's rows are the records (78796800, 1) and (94694401, 2) |
| LeapSecTzVectors.WideRecordsDecode | leapsectz/leapsectz_test.go:72-77 | the second block's 8-byte rows are the same two records |
| LeapSecTzVectors.ParseV1 | leapsectz/leapsectz_test.go:82-91 | the version 1 table parses to exactly [(78796800, 1)] |
| LeapSecTzVectors.ReadV1 | leapsectz/leapsectz_test.go:82-91 | reading it through the cursor gives the same record and no error |
| LeapSecTzVectors.ParseV2Narrow | leapsectz/leapsectz_test.go:45-60 | the first block of the version '2' table parses with 4-byte times and its size |
| LeapSecTzVectors.ParseV2Wide | leapsectz/leapsectz_test.go:61-77 | the second block parses with 8-byte times and its size |
| LeapSecTzVectors.ParseV2 | leapsectz/leapsectz_test.go:93-111 | the version '2' table parses to [(78796800, 1), (94694401, 2)] in file order |
| LeapSecTzVectors.ParseNoLeapsBlock | leapsectz/leapsectz_test.go:114-137 | a header with all counts 0 is a 44-byte block with no records |
| LeapSecTzVectors.ParseNoLeaps | leapsectz/leapsectz_test.go:113-143 | a table with LeapCnt 0 in both blocks fails with NoLeapSeconds and no records |
| LeapSecTzVectors.HeaderRejections | leapsectz/leapsectz_test.go:247-297 | magic "TZv2" and a 16-byte header give BadData; version byte 0x02 gives UnsupportedVersion |
| LeapSecTzVectors.HeaderCounts | leapsectz/leapsectz_test.go:299-322 | counts 1 to 6 in file order are IsUtcCnt, IsStdCnt, LeapCnt, TimeCnt, TypeCnt, CharCnt |
| LeapSecTzVectors.PrepareHeaderVector | leapsectz/leapsectz_test.go:202-219 | the header for version '2', one record and "UTC\x00" is exactly the 44 expected bytes |
| LeapSecTzVectors.PreAndPostData | leapsectz/leapsectz_test.go:221-239 | pre-data for "UTC\x00" is 00 00 00 00 00 00 'U' 'T' 'C' 00, and post-data is 00 00 |
| LeapSecTzVectors.WrittenRecords | leapsectz/leapsectz_test.go:337-357 | (78796800, 1) is written as 8 bytes in the first block and as 12 bytes in the second |
| LeapSecTzVectors.WriteV2Vector | leapsectz/leapsectz_test.go:324-370 | the file written for [(78796800, 1)] under "UTC" is exactly the expected bytes, ending in "\nUTC\n" |
| LeapSecTzVectors.WriteV2 | leapsectz/leapsectz_test.go:362-370 | the writer appends exactly those bytes to an empty buffer, without error |
| LeapSecTzVectors.WriteWrongVersion | leapsectz/leapsectz_test.go:372-376 | writing version '4' fails with UnsupportedVersion and leaves the buffer empty |
| LeapSecTzVectors.LatestLagsTime | leapsectz/leapsectz_test.go:181-200 | the record in effect is chosen by `tleap`: at the second record's Unix time 94694400 the first record is still the latest, one second later the second is |
| LeapSecTzVectors.LatestOfV2 | leapsectz/leapsectz_test.go:165-179 | for the version '2' table at any present time the latest record is (94694401, 2) |
| LeapSecTzVectors.ScheduledLatest | leapsectz/leapsectz_test.go:181-188 | among records at 1649346016, 1649346026 and 2649346018, the latest before the third is (1649346026, 2), and before the first there is none |
| LeapSecTzVectors.LatestSkipsFuture | leapsectz/leapsectz_test.go:181-200 | after writing those records and reading the file back, the record scheduled in the future is skipped and (1649346026, 2) is returned |
| LeapSecTzVectors.LatestBeforeFirst | leapsectz/leapsectz_test.go:181-200 | the same file, read before its first record, gives NoPastLeapSecond |

## Left out

- UDP reading of packets (`ReadNTPPacket`) and the kernel receive-timestamp benchmarks are socket and OS calls, so they are not modelled.
- File handling in `Parse` and `Latest` is not modelled: temporary files, open and close, and the package-level default path. The parser and `Latest` take the file's contents as a byte sequence.
- The wall clock is not modelled. `time.Now()` inside `Latest`, and the origin instants of the clock tests, are parameters (`now`, `origin`, `t`).
- The standard-library time types are not modelled. `time.Time` and `time.Duration` are integer nanoseconds, and `LeapSecond.Time()` gives integer Unix seconds rather than a calendar value.
- NtpClock.RoundTripDelay, NtpClock.Offset, NtpClock.CorrectTime: they work on unbounded integers, so they do not model the overflow of 64-bit nanosecond durations. That overflow only happens about 292 years away from the epoch.
- NtpClock.Time: only the 32-bit truncation of the seconds is modelled. Era disambiguation, for NTP timestamps after 2036, is not.
- NtpClock.Time: it rounds the fraction down; rounding to nearest is not modelled. The tests do not pin the rounding mode: the tested value is 2712253714.07 before rounding, the same under either rule (TimeVectorRounding). The implementation file is not part of this model; rounding down is what an integer shift-and-divide of the remainder computes.
- NtpPacket.Bytes: it has no error result. The encoding of a fixed-layout record into a memory buffer cannot fail, so the error that the source returns beside the bytes is always nil.
- NtpPacket.ValidSettingsFormat: only the version subfield is checked (1 to 4). The tests pin only settings 227 (accepted, version 4) and 0 (refused, version 0), and both agree with this rule. The implementation file is not part of this model, so any further check on the leap indicator or mode is not modelled.
- Poll is modelled as an unsigned byte and precision as a signed byte.
- LeapSecTz.ParseBody: a body shorter than its header declares fails with a separate `Truncated` error. The test files do not show which error the source reports for a short body, only those for the header.
- LeapSecTz.ParseHeader: the 15 padding bytes are only checked to be present, not to be zero. A header cut short before its version byte gives BadData; one cut short after a supported version byte also gives BadData.
- The TZif footer is not interpreted, and neither are the skipped sections (transition times, type indices, local time types, designations, indicators). Each is consumed by length only.
- LeapSecTzWriter.Buffer.Write: it always succeeds. The in-memory buffer and file writes of the source can fail, but their error paths are I/O and are not modelled.
- LeapSecTz.Time: `tleap` is read as a time on the leap-counting scale (Unix time plus the leap seconds inserted so far, less one), so the Unix time is `tleap - nleap + 1`, as a TZif leap record is defined in section 3.2 of RFC 8536. The tests pin `Time()` only for a record with `nleap` 1, where the two readings agree (leapsectz_test.go:241-245); the comment at leapsectz_test.go:108-109 names 1973-01-01T00:00:00Z, Unix 94694400, for `tleap` 94694401 with `nleap` 2, which only this reading gives.
- LeapSecTz.Time: it computes on unbounded integers, so it does not model the unsigned 64-bit wrap-around of a `tleap` smaller than `nleap - 1`.
- LeapSecTzReader.Latest: `now` is compared with `tleap` itself, not with `Time(l)`. So for `nleap - 1` seconds after each leap second's Unix time, the previous record is still the one reported (LatestLagsTime). `now` is any integer (Unix seconds), compared with the records' unsigned times as integers. How the implementation turns the clock reading into a value comparable with `tleap` is not visible; for a present-day clock, which reads a positive number of seconds, any such conversion gives the same comparison.
