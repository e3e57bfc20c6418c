# The laspy LAS header, in Dafny

This project models `laspy/header.py` from laspy, the Python library that reads and writes LAS point-cloud files. It covers:

- **`Version`**: the file version.
- **`GlobalEncoding`**: the 16-bit flag register of the header.
- **`LasHeader`**, the object that holds the public header block:
  - how its constructor settles and checks the version and point format;
  - the `point_format` and `version` setters and `set_version_and_point_format`;
  - `add_extra_dims` and `add_extra_dim`, with the synchronisation of the Extra-Bytes VLR (`_sync_extra_bytes_vlr`);
  - `partial_reset`, `update` and `set_compressed`;
  - the two halves of the file codec, `read_from` and `write_to`;
  - the table `LAS_HEADERS_SIZE`.

The project has these modules:

- **`Wrappers`**: `Option`, `Result` and `Outcome`, and the errors the header raises.
- **`Bytes`**: little-endian integers and byte-field splitting.
- **`Versions`**: `Version`, its string form and its equality.
- **`Flags`** and **`GlobalEncodings`**: the register's bit arithmetic, and the `GlobalEncoding` class.
- **`Calendar`**: the proleptic Gregorian dates of Python's `datetime.date`, reduced to a year and a day of the year.
- **`Formats`**: point formats, extra dimensions, VLRs and the Extra-Bytes sub-records. It also holds `Env`, the functions of other laspy modules that the header calls, passed in as values.
- **`Layout`**: the fixed region of the header block in the byte layout of the ASPRS LAS 1.1 to 1.4 specifications. It has an encoder, a decoder and the loops `write_to` writes with.
- **`Histogram`**: the return-number histogram that `update` folds in, starting from `np.unique(..., return_counts=True)`.
- **`HeaderState`**: the header as a value, and each operation as a function on that value. These functions are the specification.
- **`Header`**: the class `LasHeader`. Its fields are updated in place. Its NumPy arrays are Dafny arrays. Each of its methods is proved against the `HeaderState` function of the same operation, through `Snapshot()`, the header's value.

The main results are:

- **Write then read.** Writing a header and reading it back gives the header as the write left it (`HeaderState.WriteThenRead`). This holds on seekable and non-seekable streams, for any point data the VLR reader stops in front of.
- **Fixed-region codec.** Decoding is the inverse of encoding (`Layout.DecodeEncode`, `Layout.DecodeSplits`).
- **Extra-Bytes synchronisation.** After synchronisation the VLR list holds exactly one Extra-Bytes VLR describing the point format, and synchronising twice gives what synchronising once gave (`Formats.SyncedShape`, `Formats.SyncedIdempotent`). A dimension with more elements than the 3 scale and offset slots, or than the values it gives, makes synchronisation raise. The header is then left part-changed, as in the source: the setter has stored the new format and the old Extra-Bytes VLRs are gone (`HeaderState.WithPointFormat`, `HeaderState.Sync`).
- **Return counts.** The `update` loop over `np.unique` counts every return number that has a slot, and two batches count as their concatenation does (`Histogram.TalliedPairsUnique`, `Histogram.TalliedTwice`).
- **Versions.** `from_str(str(v)) == v`, and the two forms of `Version.__eq__` agree.
- **Global-encoding setters.** Each setter changes only its own bit, and setting a flag to false flips it rather than clearing it (see Findings).

## Model

| member | source | states |
|---|---|---|
| Bytes.Le | laspy/header.py:550 | `to_bytes(n, "little")`: n bytes whose little-endian value is the number |
| Bytes.LeOfValue | laspy/header.py:431-433 | `int.from_bytes` followed by `to_bytes` of the same width gives the bytes back |
| Versions.ParseNat | laspy/header.py:35 | `int` succeeds exactly on a non-empty string of decimal digits |
| Versions.NatToString | laspy/header.py:44-45 | a number prints as a non-empty string of digits |
| Versions.FromStr | laspy/header.py:33-36 | a string that parses has exactly one '.'. With one '.', it parses exactly when both sides of the '.' are digit strings, and the version is their values. Every failure is a VersionFormat error |
| Versions.FromStrToStr | laspy/header.py:33-45 | parsing the printed form of any version gives that version back |
| Versions.ToStrInjective | laspy/header.py:44-45 | two versions that print alike are the same version |
| Versions.EqualsVersion | laspy/header.py:38-42 | a Version equals another Version exactly when major and minor agree; it equals the string of another version exactly when the two versions are the same |
| Versions.EqualsStringParses | laspy/header.py:33-42 | a string that a Version compares equal to parses back to that Version |
| Versions.LeadingZeroNotEqual | laspy/header.py:33-42 | "1.02" parses to 1.2, yet 1.2 is not equal to "1.02" |
| Flags.SetTrueSets | laspy/header.py:63-73 | setting a flag to true makes its getter true |
| Flags.SetFalseFlips | laspy/header.py:66-73 | setting a flag to false leaves it set exactly when it was clear |
| Flags.SetIfTrueKeepsOthers | laspy/header.py:63-73 | setting one flag leaves every other bit of the register unchanged |
| Flags.SetterIsolation | laspy/header.py:84-114 | after one named setter, every other named getter answers as before |
| Flags.SetGpsEffect | laspy/header.py:79-82 | after the gps_time_type setter the bit is set exactly when the new type is STANDARD or the bit was clear |
| Flags.SetGpsKeepsOthers | laspy/header.py:79-82 | the gps_time_type setter leaves the other bits unchanged |
| Flags.AssignSets | laspy/header.py:69-73 | the intended setter leaves the flag equal to the value given |
| Flags.AssignKeepsOthers | laspy/header.py:69-73 | the intended setter leaves the other bits unchanged |
| Flags.ClearingAClearFlagSetsIt | laspy/header.py:66-82 | on a fresh register, `wkt = False` makes wkt true and `gps_time_type = WEEK_TIME` reads back as STANDARD; the intended setter leaves both clear |
| GlobalEncodings.Encode | laspy/header.py:120-121 | the register is written as exactly 2 bytes |
| GlobalEncodings.Decode | laspy/header.py:116-118 | reading takes 2 bytes of the stream and leaves the rest |
| GlobalEncodings.DecodeEncode | laspy/header.py:116-121 | reading what `write_to` wrote gives the same register value and leaves what follows |
| GlobalEncodings.GlobalEncoding.constructor | laspy/header.py:60-61 | the register holds the value given |
| GlobalEncodings.GlobalEncoding.GpsTimeType | laspy/header.py:75-77 | the getter is STANDARD exactly when bit 0 is set |
| GlobalEncodings.GlobalEncoding.SetGpsTimeType | laspy/header.py:79-82 | the register becomes the setter's XOR-then-OR of the old value, whose effect Flags.SetGpsEffect states |
| GlobalEncodings.GlobalEncoding.SetWaveformDataPacketsInternal | laspy/header.py:88-90 | the register becomes `_set_if_true` of the old value on the internal-waveform mask |
| GlobalEncodings.GlobalEncoding.SetWaveformDataPacketsExternal | laspy/header.py:96-98 | the same, on the external-waveform mask |
| GlobalEncodings.GlobalEncoding.SetSyntheticReturnNumbers | laspy/header.py:104-106 | the same, on the synthetic-return-numbers mask |
| GlobalEncodings.GlobalEncoding.SetWkt | laspy/header.py:112-114 | the same, on the WKT mask |
| GlobalEncodings.GlobalEncoding.SetFlag | laspy/header.py:69-73 | OR for true, XOR for false, on the flag's mask |
| GlobalEncodings.GlobalEncoding.WriteTo | laspy/header.py:120-121 | the bytes written are the encoding that GlobalEncodings.DecodeEncode reads back |
| Calendar.FromOrdinalOrdinal | laspy/header.py:450-452 | every date from 1 January 1 to 31 December 9999 is the date of its own ordinal |
| Calendar.FromStored | laspy/header.py:445-454 | a year outside 1 to 9999 gives no date (the caught ValueError); otherwise the result is either a real date whose ordinal is that of 1 January plus day − 1, or the uncaught OverflowError |
| Calendar.FromStoredValid | laspy/header.py:445-454 | a real date stored as its day of the year and year is read back as itself |
| Calendar.FromStoredCarries | laspy/header.py:449-452 | a day one past the end of the year reads as 1 January of the next year |
| Calendar.FromStoredBeforeFirst | laspy/header.py:449-452 | day 0 of year 1 falls before the first date and raises |
| Formats.AddExtraDimensionSize | laspy/header.py:357-360 | adding a dimension grows the point size by that dimension's element count times element size |
| Formats.EbStructOf | laspy/header.py:663-688 | raises SlotIndex (the IndexError of the copy loops) exactly when the element count passes the 3 slots or the given scales or offsets. Otherwise the sub-record keeps the name and description. For more than 3 elements of type "u1" it has data type 0 and the count in options; otherwise the type's id and options 0. Each relevance bit is set exactly when scales or offsets are given, and each slot holds the given value for the first n elements and 0.0 elsewhere |
| Formats.EbStructs | laspy/header.py:661-688 | raises exactly when some dimension does not fit its slots; otherwise one sub-record per extra dimension, in order |
| Formats.RemoveExtraBytes | laspy/header.py:652-655 | no Extra-Bytes VLR remains, and the other VLRs are kept |
| Formats.FirstExtraBytes | laspy/header.py:521-524 | the first Extra-Bytes VLR of the list; none (the IndexError path) exactly when there is none |
| Formats.SyncedShape | laspy/header.py:651-690 | synchronisation raises SlotIndex exactly when some extra dimension does not fit its slots. Otherwise the list holds no Extra-Bytes VLR for a format without extra dimensions, and exactly one, at the end, with a sub-record for every dimension, for a format with some. The other VLRs are unchanged |
| Formats.SyncedIdempotent | laspy/header.py:651-690 | when synchronising succeeds, doing it a second time changes nothing |
| Formats.SyncedFirstExtraBytes | laspy/header.py:651-690 | the Extra-Bytes VLR that `read_from` would pick after synchronisation is the one describing the format |
| Layout.Encode | laspy/header.py:549-646 | the fixed region is 227, 235 or 375 bytes by minor version, starts with "LASF" and holds the minor version at byte 25 |
| Layout.Decode | laspy/header.py:427-496 | a stream is refused for its signature exactly when it does not start with "LASF"; a decoded region has every field within its width |
| Layout.DecodeSplits | laspy/header.py:427-496 | the stream is the encoding of the decoded fields followed by the rest: nothing is skipped or invented |
| Layout.EncodeFixedAt | laspy/header.py:431-496 | every region with the signature and the length its minor version calls for is the encoding of the fields read from it |
| Layout.DecodeEncode | laspy/header.py:427-646 | decoding the bytes `write_to` emits gives the same fields and leaves what follows |
| Layout.DeinterleaveInterleave | laspy/header.py:475-477 | reading the max/min pairs undoes writing them in that interleaved order |
| Layout.HeadersSizeMatchesLayout | laspy/header.py:696-701 | the table knows exactly the versions 1.1 to 1.4, and each size is the length of the fixed region that version writes |
| Layout.AsciiBytes | laspy/header.py:556 | `encode("ascii")` succeeds exactly when every character is below 128, byte for character |
| Layout.Identifier | laspy/header.py:556-574 | an identifier becomes exactly 32 bytes: its ASCII bytes cut to 32, or NUL-padded |
| Layout.RStripNul | laspy/header.py:442 | the result is the longest prefix that does not end in NUL, and only NULs are removed |
| Layout.DecodeAscii | laspy/header.py:442 | decoding succeeds exactly on bytes below 128, character for byte |
| Layout.IdentifierRoundTrip | laspy/header.py:556-574 | an ASCII identifier of at most 32 characters that does not end in NUL reads back unchanged |
| Layout.IdentifierTruncates | laspy/header.py:556-574 | a longer identifier reads back as a prefix of its first 32 characters, and as all 32 when the 32nd is not NUL |
| Layout.Emit | laspy/header.py:549-646 | the field-by-field writes produce exactly the encoding of the fixed region |
| Layout.EmitPreamble | laspy/header.py:549-554 | signature, file source id, global encoding, UUID and version, in that order |
| Layout.EmitIdentity | laspy/header.py:556-584 | the two identifiers and the creation day and year |
| Layout.EmitPointers | laspy/header.py:590-598 | header size, offset to point data, VLR count, point format id and point size |
| Layout.EmitLegacy | laspy/header.py:600-618 | the 4-byte point count and the five 4-byte return counts |
| Layout.EmitCounts | laspy/header.py:613-618 | the loop writes every count in its width, in order |
| Layout.EmitDoubles | laspy/header.py:620-623 | the loop writes every double, in order |
| Layout.EmitExtents | laspy/header.py:620-626 | scales, offsets, then each maximum followed by its minimum |
| Layout.EmitTail | laspy/header.py:628-646 | the LAS 1.3 waveform pointer and the LAS 1.4 fields, only for the versions that have them |
| Histogram.Unique | laspy/header.py:409-411 | `np.unique` gives distinct values in strictly ascending order, each with a positive count |
| Histogram.UniqueCounts | laspy/header.py:410 | each count is the number of occurrences of its value |
| Histogram.TalliedPairsSnoc | laspy/header.py:416 | a return number with a slot adds its count to that slot, wrapping at 2^32 |
| Histogram.TalliedPairsSkip | laspy/header.py:412-413 | return number 0 changes nothing |
| Histogram.TalliedPairsStop | laspy/header.py:414-415 | since the values ascend, stopping at the first one past the last slot loses nothing |
| Histogram.TalliedPairsUnique | laspy/header.py:409-416 | the loop over the `np.unique` pairs adds to each slot j the number of points with return number j + 1, modulo 2^32 |
| Histogram.TalliedTwice | laspy/header.py:409-416 | two batches tallied one after the other give what their concatenation gives |
| Histogram.TalliedIgnores | laspy/header.py:412-415 | points with return number 0 or above 15 leave the histogram unchanged |
| Histogram.SeqMax | laspy/header.py:386 | `max()` is an element of the batch and no element exceeds it |
| Histogram.SeqMin | laspy/header.py:398 | `min()` is an element of the batch and no element is below it |
| HeaderState.Resolve | laspy/header.py:162-176 | the settled version and format always pass the compatibility check; failing it is an Incompatible error. No arguments give 1.2 and format 3. An id becomes `PointFormat(id)`. A string version is parsed, and a bad one is a VersionFormat error. A missing format is the minimum for the version; a missing version is the preferred one for the format |
| HeaderState.Initial | laspy/header.py:178-230 | `__init__` raises SlotIndex exactly when an extra dimension of the format does not fit its slots. Otherwise the header keeps the given version and format, holds one Extra-Bytes VLR exactly when the format has extra dimensions, and has the shapes every header has |
| HeaderState.Defaults | laspy/header.py:178-228 | the fields the constructor sets keep the given version and format, hold no VLRs, and have the shapes every header has: a 16-byte UUID, 3 scales, offsets and extrema, 15 return slots, a real date |
| HeaderState.Sync | laspy/header.py:651-690 | the synchronisation raises exactly when some extra dimension does not fit its slots. Then the header is left with its Extra-Bytes VLRs removed and nothing else changed. Otherwise only the VLR list changes, to the synchronised list |
| HeaderState.Constructed | laspy/header.py:156-230 | a constructed header's format goes with its version. Construction raises what settling the arguments raises, and after that raises exactly when an extra dimension of the settled format does not fit its slots |
| HeaderState.DefaultIsBlank | laspy/header.py:178-230 | the default header has no VLRs, no stray bytes, zero return counts and zero EVLR and waveform pointers |
| HeaderState.Written | laspy/header.py:542-649 | a successful write is the fixed region of the version's length, starting with "LASF", followed by the VLR bytes. With VLRs, its length is the offset to point data it records. A non-ASCII identifier, a version missing from the size table, or more than 2^32 − 1 points before LAS 1.4 make the write fail |
| HeaderState.WrittenStages | laspy/header.py:549-598 | the write fails with the error of the first field that cannot be written, in file order |
| HeaderState.AfterWriteSettles | laspy/header.py:576-588 | the write leaves only a filled-in creation date and, with VLRs, the offset to point data changed, even when a later field fails |
| HeaderState.FixedOfWellFormed | laspy/header.py:590-646 | once the checks pass, every field the write emits fits its width |
| HeaderState.ReturnsRead | laspy/header.py:465-496 | before LAS 1.4 the five legacy counts followed by zeros; from 1.4 on the fifteen 8-byte counts, failing exactly when one does not fit the uint32 array |
| HeaderState.LegacyReturns | laspy/header.py:466-469 | the first five slots hold the legacy counts, the rest stay 0 |
| HeaderState.FormatRead | laspy/header.py:518-535 | the format id is the uncompressed stored id. With no Extra-Bytes VLR the format has no extra dimensions and the list is kept. When the stored point size is the base size, the Extra-Bytes VLRs are dropped; otherwise the format takes the first VLR's dimensions and the list is kept. The result always agrees with its VLRs |
| HeaderState.FieldsRead | laspy/header.py:431-496 | the fields read have every header's shapes and the stored version. The point count comes from the 1.4 field or the legacy one, and fits 32 bits before 1.4. Compression is taken from the id, and the format is the uncompressed id |
| HeaderState.Placed | laspy/header.py:498-538 | after the fixed region only the format, the VLRs and the stray bytes change; the format has the stored point size and agrees with the VLRs; a seekable read has its fixed region inside the stored header size |
| HeaderState.AfterVlrs | laspy/header.py:509-538 | after the VLRs only the format, the VLRs and the bytes before the points change, and the format has the stored point size |
| HeaderState.Parsed | laspy/header.py:422-540 | a header read from a stream has every header's shapes and the point size stored in the stream. Its point format agrees with its Extra-Bytes VLR, and its point count fits 32 bits before LAS 1.4 |
| HeaderState.Loaded | laspy/header.py:427-540 | the same, once the default header exists |
| HeaderState.ParsedLoads | laspy/header.py:425 | `read_from` fails as the default constructor does, or else reads the stream |
| HeaderState.LoadedFails | laspy/header.py:427-496 | the read fails with the error of the first stage that fails |
| HeaderState.ParsedSignature | laspy/header.py:427-429 | the read is refused for its signature exactly when the stream does not start with "LASF" |
| HeaderState.FieldsReadBack | laspy/header.py:431-496 | the fields of a storable header come back from the fixed region that the write emits |
| HeaderState.StorableReadBack | laspy/header.py:431-496 | the same, for any date, header size and offset |
| HeaderState.FormatReadBack | laspy/header.py:518-538 | the point format and VLRs come back from the stored id, point size and VLR list when the Extra-Bytes VLR describes the format |
| HeaderState.PlacedReadBack | laspy/header.py:498-516 | with no gap before or after the VLRs, the VLRs come back and no stray bytes are read |
| HeaderState.WrittenDecodes | laspy/header.py:542-649 | the bytes a write emits decode to the fixed region it built, followed by the VLR bytes and the point data |
| HeaderState.WriteThenRead | laspy/header.py:422-649 | writing a header with its VLRs and reading the bytes back gives the header as the write left it, on seekable and non-seekable streams |
| HeaderState.WithPointFormat | laspy/header.py:237-243 | the setter raises exactly when the format does not go with the version or an extra dimension does not fit its slots. On incompatibility it raises Incompatible and nothing changes. Otherwise the format is stored whatever happens next; on SlotIndex the old Extra-Bytes VLRs are gone, and on success the list is the synchronised one |
| HeaderState.SetFormatDescribes | laspy/header.py:237-243 | after the setter the Extra-Bytes VLR is in step with the new format, as reading back needs |
| HeaderState.WithVersion | laspy/header.py:250-255 | the setter fails exactly when the current format does not go with the new version |
| HeaderState.WithVersionAndPointFormat | laspy/header.py:365-370 | raises exactly when the new pair is incompatible, whatever the old format, or an extra dimension does not fit. An incompatible pair changes nothing. Otherwise the version and format are stored, even when the synchronisation then raises |
| HeaderState.VersionThenFormat | laspy/header.py:365-370 | whenever setting the version alone is allowed, the combined call raises what setting the version and then the format raises. It leaves the same header when the new pair goes together. When it does not, the combined call keeps the old version where the two steps store the new one |
| HeaderState.WithExtraDims | laspy/header.py:357-360 | the dimensions are appended to the format even when the synchronisation then raises, and it raises SlotIndex exactly when a dimension of the grown format does not fit its slots |
| HeaderState.ExtraDimsGrow | laspy/header.py:357-360 | the point size grows by the new dimensions' bytes and the id is kept, whether or not the synchronisation raises. On success the list holds one Extra-Bytes VLR, with a sub-record for every dimension, old and new, in order. On SlotIndex it holds none |
| HeaderState.Reset | laspy/header.py:372-381 | the reset header keeps every header's shapes |
| HeaderState.ResetThenUpdate | laspy/header.py:372-417 | after a reset, one batch leaves in each slot the number of its points with that return number, modulo 2^32, and its size as the point count |
| HeaderState.Updated | laspy/header.py:383-417 | an empty batch raises (the `max` of an empty array) before anything changes; otherwise the point count grows by the batch size |
| HeaderState.UpdatedExtrema | laspy/header.py:384-407 | each new maximum is the scaled maximum of the batch when that compares greater than the old one, and the old one otherwise; the same holds for minima the other way round |
| HeaderState.ExtremaMonotone | laspy/header.py:384-407 | under an asymmetric comparison, an update never pulls a maximum down or a minimum up |
| HeaderState.UpdatedTwice | laspy/header.py:409-417 | two batches give the return counts and point count that their concatenation gives |
| Header.LasHeader.Init | laspy/header.py:178-228 | the constructor builds a fresh array for each field and a fresh register, and sets every field to `Defaults` |
| Header.LasHeader.Create | laspy/header.py:156-230 | construction, including the synchronisation at its end, raises exactly when `Constructed` does, with the same error; otherwise it builds the fresh header `Constructed` describes |
| Header.LasHeader.SyncExtraBytesVlr | laspy/header.py:651-690 | raises and leaves the header as `Sync` says: on SlotIndex with the Extra-Bytes VLRs removed, otherwise with the synchronised list |
| Header.LasHeader.SetPointFormat | laspy/header.py:237-243 | raises what `WithPointFormat` raises and leaves the header as it says, also on error |
| Header.LasHeader.SetVersion | laspy/header.py:250-255 | the same, against `WithVersion` |
| Header.LasHeader.SetVersionAndPointFormat | laspy/header.py:365-370 | the same, against `WithVersionAndPointFormat` |
| Header.LasHeader.AddExtraDims | laspy/header.py:357-360 | the loop appends the dimensions in turn; the method raises what `WithExtraDims` raises and leaves the header as it says, also on error |
| Header.LasHeader.AddExtraDim | laspy/header.py:362-363 | adding one dimension is `add_extra_dims` of a one-element list, error included |
| Header.LasHeader.PartialReset | laspy/header.py:372-381 | the header becomes `Reset`, with fresh extrema and return-count arrays |
| Header.LasHeader.ResetArrays | laspy/header.py:376-378 | fresh zeroed extrema and a fresh zeroed uint32 histogram; nothing else changes |
| Header.LasHeader.Update | laspy/header.py:383-417 | an empty batch fails leaving the header unchanged; otherwise the header becomes `Updated` |
| Header.LasHeader.StretchExtrema | laspy/header.py:384-407 | the six axis setters leave the extrema `Stretched` to the batch |
| Header.LasHeader.TallyReturns | laspy/header.py:409-416 | the loop with its skip and break leaves the histogram tallied with the batch's return numbers |
| Header.LasHeader.GrowPointCount | laspy/header.py:417 | the point count grows by the batch size and nothing else changes |
| Header.LasHeader.SetCompressed | laspy/header.py:419-420 | only the compression flag changes, to the value given |
| Header.LasHeader.WriteTo | laspy/header.py:542-649 | the bytes or the error are those of `Written`; the header is left as `AfterWrite` says, also on error |
| Header.LasHeader.WriteDated | laspy/header.py:576-649 | the same, once the identifiers are encoded |
| Header.LasHeader.FillCreationDate | laspy/header.py:576-577 | a missing creation date becomes today's, and nothing else changes |
| Header.LasHeader.SetOffsetToPointData | laspy/header.py:587-588 | only the offset to point data changes |
| Header.LasHeader.WriteFixed | laspy/header.py:590-649 | the count and tail checks fail with the error `WrittenFrom` gives; otherwise the fixed region and the VLR bytes are written |
| Header.LasHeader.ReadFrom | laspy/header.py:422-540 | fails exactly when `Parsed` fails, with its error; otherwise returns a fresh header whose value is `Parsed` |
| Header.LasHeader.ReadInto | laspy/header.py:431-540 | reading the decoded fixed region and what follows into the default header fails exactly as the pure read does, and otherwise leaves the header equal to it |
| Header.LasHeader.ReadFixed | laspy/header.py:431-496 | the fixed-region fields go into the header, with a new register object, exactly when `FieldsRead` succeeds |
| Header.LasHeader.SetIdentity | laspy/header.py:431-454 | file source id, a new register with the stored value, UUID, version, identifiers and date are set |
| Header.LasHeader.ReadCounts | laspy/header.py:456-496 | offset, point count, return counts, scales, offsets, extrema, LAS 1.3/1.4 pointers, compression and format are stored. It fails only when a 1.4 return count does not fit, as `ReturnsRead` says |
| Header.LasHeader.ReadLegacyReturns | laspy/header.py:465-469 | the loop stores the five legacy counts into the zeroed array |
| Header.LasHeader.ReadExtents | laspy/header.py:471-477 | the loops leave the arrays equal to the stored scales, offsets, maxima and minima |
| Header.LasHeader.ReadExtendedReturns | laspy/header.py:493-496 | the loop stores the fifteen counts, and fails at the first one that does not fit uint32 |
| Header.LasHeader.ReadPlaced | laspy/header.py:498-538 | the part after the fixed region fails and succeeds as `Placed` does |
| Header.LasHeader.ReadAfterVlrs | laspy/header.py:509-538 | the part after the VLRs fails and succeeds as `AfterVlrs` does |
| Header.LasHeader.ReadPointFormat | laspy/header.py:518-535 | the format built dimension by dimension, and the VLR list kept, are those of `FormatRead` |
| Header.Zeroed | laspy/header.py:376-377 | `np.zeros(n)`: a fresh array of n zero doubles |
| Header.ZeroCounts | laspy/header.py:378 | `np.zeros(15, dtype=np.uint32)`: a fresh array of 15 zero counts |
| Header.BuildEbStructs | laspy/header.py:661-688 | the loop builds one sub-record per dimension, in order, and stops with the IndexError of the first dimension that does not fit, as `EbStructs` says |
| Header.BuildEbStruct | laspy/header.py:663-688 | the slot-copy loops build the sub-record `EbStructOf` describes, and raise SlotIndex at the first index past the slots or the given values |

## Left out

- The functions of other laspy modules are parameters (`Formats.Env`) and are not part of this model:
  - the version/format compatibility check and its two lookup tables;
  - the base size of a point format, and the type id of an extra-dimension type string;
  - the compressed/uncompressed id maps;
  - the VLR list codec (`VLRList.read_from`, `VLRList.write_to`);
  - `ExtraBytesVlr.type_of_extra_dims`.
- The same parameter also stands for float comparison and for the scaling `raw * scale + offset`. Doubles are their 8 stored bytes and are never interpreted, so NaN and rounding behave as the comparison parameter says.
- `date.today()` is the parameter `today`.
- A creation date is a year and a day of the year, the only parts the header stores. The month and day of `datetime.date` are not modelled.
- The stream is a byte sequence positioned at the header. `stream.tell()` is taken as the offset into that sequence, so a header that does not start at position 0 is not modelled.
- Logging, the x/y/z scale, offset, maximum and minimum properties (plain array accessors), and `__repr__` are not modelled.
- Point formats are values, so the aliasing of `DEFAULT_POINT_FORMAT` is not modelled. In the source, headers built with no arguments share that one object, and `add_extra_dims` changes it in place for all of them.
- `PointFormat(id)` raising for an unknown id is not modelled; any id is accepted.
- Integers are natural numbers, so negative field values, which `to_bytes(..., signed=False)` would reject, are not modelled.
- The name and description of an extra dimension stay strings; their UTF-8 encoding belongs to the VLR codec.
- Versions.ParseNat: accepts only plain ASCII digit strings, because Python's `int` also accepts surrounding whitespace, a sign, underscores and non-ASCII digits and that leniency is not modelled.
- Layout.DecodeAscii: the source decodes identifiers as UTF-8; the model accepts only ASCII bytes and reports any byte above 127 as undecodable, so a non-ASCII UTF-8 identifier that the source reads is an error here.
- Layout.Decode: a stream shorter than its fixed region is refused up front (Truncated). In the source a short read gives smaller integers or a `struct.error` in the middle of the fields.
- HeaderState.ReturnsRead: follows NumPy 2, where storing a 1.4 return count of 2^32 or more into the uint32 array raises. NumPy 1 would store it modulo 2^32.
- Header.LasHeader.ReadFrom: the freshness of the new header is stated object by object (header, register, arrays). The header built on the way to an error is discarded, as the source discards it by raising.
- Header.LasHeader.ReadFixed: the identity fields are stored after both identifiers and the date are decoded. The compression flag and the point format id are stored with the fixed-region fields rather than after the VLRs. On error the header is discarded, so neither order can be observed.
- Header.LasHeader.WriteTo: the bytes are returned only when the whole write succeeds. The prefix the source has already written to the stream before raising is not modelled.
- Header.LasHeader.AddExtraDims: the grown point format is built as a value and stored once. The source changes the format object in place, one dimension at a time; only the aliasing noted above could observe the difference.
- GlobalEncodings.GlobalEncoding.constructor: the register value is a 16-bit number; larger Python integers are not modelled.

## Findings

| source | as written | input that shows it | evidently intended | confidence | as-written member | corrected member |
|---|---|---|---|---|---|---|
| laspy/header.py:66-82 | `_unset_bit` and the `gps_time_type` setter XOR the mask, which flips the bit instead of clearing it | a fresh register (value 0): `wkt = False` makes `wkt` true, and `gps_time_type = WEEK_TIME` makes it read STANDARD | setting a flag to false clears it and leaves it clear | not executed | Flags.ClearingAClearFlagSetsIt | Flags.AssignSets |
