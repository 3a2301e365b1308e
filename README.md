# NMEA sentence field extraction

A Dafny model of `NMEA::extractSentenceData` from the NTU-GPS parser
(`src/parseNMEA.cpp`). The routine takes one NMEA 0183 sentence of the shape
`$GP` + three-letter format + `,` + comma-separated data + `*hh`. It returns
a `SentenceData` pair: the format tag (for example `GGA`) and the ordered
list of the data fields as strings.

The C++ routine works on copies of the sentence with successive
`std::string::erase` calls. It then reads the remaining data through a
`std::stringstream`, running `getline(…, ',')` while the stream is `good()`.
The model keeps that form:

- `StdString` (`std_string.dfy`) models the library operations the slicing
  relies on. `Erase` is `std::string::erase`, including the
  `std::out_of_range` it throws when the position lies past the end.
  `SizeSub` is the unsigned `size_t` subtraction used to locate the
  checksum suffix, and it wraps around.
- `Fields` (`fields.dfy`) is the pure specification of the comma split.
  `Split` and `Join` are functions, with lemmas for the round trip in both
  directions, the field count, comma-free fields and field order.
- `NMEA` (`parse_nmea.dfy`) holds the imperative part. `GetLine` is one
  `getline` from a read position. `ReadFields` is the `while (good())`
  loop. `ExtractSentenceData` performs the erase steps in the source's
  order. Each method is proved against `Split` or against
  `SentenceSpec`, the slice-and-split specification. Lemmas lift the
  `Fields` properties to whole sentences.
- `Wrappers` (`wrappers.dfy`) holds `Option` and `Result`.

The C++ throws `std::out_of_range` when a sentence is too short. The model
turns that into `Failure(site)`, where `site` names the `erase` call that
throws:

- Below 6 characters, the erase that isolates the format tag (line 41)
  throws.
- From 6 to 9 characters, the data string after line 44 is shorter than
  the 3-character suffix. `fieldsStr.length() - suffixLen` then wraps to a
  huge unsigned position, and the erase at line 45 throws.
- From 10 characters on, the call always succeeds.

Nothing inspects the prefix, the character after the tag or the checksum
suffix. In particular, no framing check or checksum check happens here.

A sentence with no data fields, such as `$GPGGA*4F`, does not give an
empty field list: at 9 characters it makes the erase at line 45 throw. The
shortest sentence that succeeds, such as `$GPGGA,*4F`, gives one empty
field `[""]`, so the field list is never empty.

A C++ `std::string` is modelled as a Dafny `string`, one Dafny `char` per
C++ `char` byte. The offsets 3, 6, 7 and length − 3 count those bytes.
NMEA 0183 sentences are ASCII, so this is exact for them. For UTF-8 text
with multi-byte characters, the C++ slices would fall at different places.

## Model

| member | source | states |
|---|---|---|
| StdString.SizeSub | src/parseNMEA.cpp:45 | `size_t` subtraction agrees with the integer difference modulo 2^64. It is exact when no borrow occurs. With a borrow it lands past the end of the string (above `a`, below 2^64). |
| StdString.Erase | src/parseNMEA.cpp:37-45 | `erase(pos, count)` fails (`std::out_of_range`) exactly when `pos` exceeds the length. Otherwise it keeps the characters before `pos` and removes `min(count, size - pos)` characters (all of them for `npos`). The characters after those stay, in order. |
| Fields.Split | src/parseNMEA.cpp:50-55 | The split of any string, the empty string included, has at least one field. |
| Fields.SplitCount | src/parseNMEA.cpp:51-54 | The number of fields is the number of delimiters plus one. |
| Fields.SplitNoDelimiter | src/parseNMEA.cpp:53 | No field contains the delimiter. |
| Fields.SplitJoin | src/parseNMEA.cpp:50-55 | Joining the fields with the delimiter reproduces the split string. |
| Fields.JoinSplit | src/parseNMEA.cpp:50-55 | Splitting a join of delimiter-free fields gives those fields back, so the split is the unique such list. |
| Fields.SplitConcat | src/parseNMEA.cpp:51-55 | Splitting `a` + delimiter + `b` gives the fields of `a` followed by those of `b`, so fields keep their left-to-right order. |
| Fields.TrailingDelimiter | src/parseNMEA.cpp:51-54 | A trailing delimiter adds one empty last field. |
| NMEA.GetLine | src/parseNMEA.cpp:53 | `getline` returns the characters up to the next delimiter and consumes that delimiter. It reports end-of-stream exactly when no delimiter remains, in which case it returns the rest of the buffer. The field it returns is the first field of the unread text, and the rest of the split continues from the new position. |
| NMEA.ReadFields | src/parseNMEA.cpp:50-55 | The `good()`/`getline`/`push_back` loop returns exactly the comma split of the string, in order. |
| NMEA.DataString | src/parseNMEA.cpp:43-45 | The data has length `|sen| - 10`, and the sentence is the 7-character head, then the data, then the 3-character suffix. |
| NMEA.SentenceSpec | src/parseNMEA.cpp:34-60 | The format tag has exactly 3 characters and the field list is never empty. |
| NMEA.ExtractSentenceData | src/parseNMEA.cpp:23-62 | Throws at the format-tag erase exactly when the sentence is shorter than 6. Throws at the suffix erase exactly for lengths 6 to 9. Succeeds exactly from 10 on. On success, returns the tag `sen[3..6]` and the comma split of `sen[7..|sen|-3]`. |
| NMEA.OnlyFormatAndDataMatter | src/parseNMEA.cpp:34-45 | For any 3-character prefix, any separator character and any 3-character suffix, the result is the given format tag and the split of the given data. Those discarded characters never influence the output. |
| NMEA.FieldsJoinToData | src/parseNMEA.cpp:50-55 | Joining the returned fields with `,` reproduces `sen[7..|sen|-3]` exactly. |
| NMEA.FieldCount | src/parseNMEA.cpp:51-54 | The number of returned fields is the number of commas in the data plus one. |
| NMEA.FieldsHaveNoComma | src/parseNMEA.cpp:53 | No returned field contains a comma. |
| NMEA.FieldsAreTheSegments | src/parseNMEA.cpp:51-55 | Any non-empty comma-free list that joins to the data equals the returned fields, so field `k` is the `k`-th comma-delimited segment. |
| NMEA.TrailingCommaGivesEmptyField | src/parseNMEA.cpp:51-54 | A comma just before `*hh` yields the fields of the data before it, followed by one empty field. |
| NMEA.EmptyDataGivesOneEmptyField | src/parseNMEA.cpp:44-55 | A 10-character sentence (empty data) gives its format tag with the list `[""]`. |
| NMEA.ExampleGGA | src/parseNMEA.cpp:23-62 | `$GPGGA,1,2,3*4F` gives `GGA` with fields `1`, `2`, `3`. |

## Left out

- `isWellFormedSentence` and `hasValidChecksum` (src/parseNMEA.cpp:9-21): stubs that always return `false`. The code has no framing or XOR-checksum logic to model.
- `positionFromSentenceData` (src/parseNMEA.cpp:64-68): a stub that returns `GPS::Earth::NorthPole`. `earth.h` and the floating-point `GPS::Position` type are not part of this model.
- `routeFromLog` (src/parseNMEA.cpp:70-74): a stub that takes an input stream (I/O) and returns an empty route.
- `parseNMEA.h` is not part of this model. `SentenceData` is modelled as the pair (format, fields) that lines 58-60 fill in.
- The `std::stringstream` state flags are not modelled. The loop keeps a read position and one `good` flag, which turns false when `getline` reaches the end without finding a comma (end-of-file). Only that flag decides the loop here.
- StdString.SizeSub: exact only for operands below 2^64. Dafny strings are unbounded, while a `std::string` never reaches 2^64 characters. The width of `size_t` is taken to be 64 bits. On a 32-bit target the modulus is 2^32, and the wrapped position still lies past the end, so the erase at line 45 throws in the same cases.
