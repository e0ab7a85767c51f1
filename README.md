# Product record file: a verified model

This project models the product file used by the FileStreams programs. `RandProductMaker` writes product records to a `RandomAccessFile`. `RandProductSearch` reads them back and lists the ones whose name contains a search term.

The model covers:

- **`Product`** (`Products`): its 35/75/6 field widths and `RECORD_SIZE`, and `padString`, which pads or truncates a field. Also the three `...ForRandom` getters, the constructor and the setters. The class is a Dafny `class` whose setters change one field each. `padString` is a method with `padString`'s loop, which appends until the string is long enough, proved against the function `Padded`.
- **The file** (`RandomAccess`): a class `RandomFile` holding a byte sequence and a file pointer. Its methods implement `writeUTF`/`readUTF` and `writeDouble`/`readDouble`.
  - `writeUTF`/`readUTF` write and read a two-byte big-endian count followed by Java's modified UTF-8. The encoding (`ModifiedUtf8`) has one encoding per UTF-16 code unit: U+0001..U+007F take one byte, U+0000 and U+0080..U+07FF take two, everything else takes three.
  - `writeDouble`/`readDouble` write and read eight big-endian bytes, treated as opaque 64-bit values.
  - A write replaces bytes from the pointer on and grows the file only as far as it reaches.
- **The record format** (`RecordFormat`): one record is `writeUTF` of the padded name, description and id, followed by the cost. Records are concatenated with no header. `DecodeRecord` is one pass of the search loop's reads. Its key results are:
  - what it returns for written bytes, for a file cut short anywhere, and for malformed text;
  - that each record read takes at least 14 bytes;
  - that `trim` undoes the padding.
- **The maker** (`ProductMaker`): the ".dat" suffix rule and the read-write open at pointer 0. `addProduct` is a method of the class `RandProductMaker`: it validates, builds the `Product`, does the four writes and increments `recordCount`. Its ghost state records the file as opened and the records added since, and its invariant ties the file's bytes to them.
- **The search** (`ProductSearch`): `searchProducts` is a method with `searchProducts`' loop, which runs while the file pointer is short of the length. It is proved equal to `SearchResult`, which decodes the records of the file (`Records`) and filters them by lower-cased name. Several properties are stated over `SearchResult`:
  - the round trip from adds to search;
  - the silent drop of a truncated last record;
  - abandoning the whole search on malformed text, and the empty-file case;
  - a blank search term.

The model follows a few behaviours of the program that a reader might not expect:

- **Truncated records are dropped silently.** A record cut short ends the scan through the `EOFException` branch (`src/RandProductSearch.java:135-136`). The search succeeds with the matches before it, and no error is reported (`TruncatedRecordDropped`).
- **The maker overwrites instead of appending.** It opens the file `"rw"` with the pointer at 0 (`src/RandProductMaker.java:122`), so it overwrites an existing file from the front. When each new record has the byte size of the old record it covers (for instance when all text is plain ASCII), old records past the new ones stay in place and a later search still finds them (`SessionKeepsOldTail`, `SessionSearchSeesOldTail`). A new record shorter than the one it covers leaves that old record's last bytes behind it, so the records after it are no longer aligned (`ShorterRecordLeavesStaleBytes`).
- **`RECORD_SIZE` is not the record size.** It evaluates to 240, but a record of plain ASCII text is 2+35 + 2+75 + 2+6 + 8 = 130 bytes, and other text makes records longer. The constant is never used to seek (`AsciiRecordSize`, `RecordBytes`).
- **Malformed text abandons the search.** A `UTFDataFormatException` is an `IOException` but not an `EOFException`, so it escapes the loop. The search is abandoned and the matches found so far are discarded (`MalformedBytesAbandonSearch`).

The model's own conventions:

- Strings are sequences of UTF-16 code units.
- `trim` strips code units up to U+0020 from both ends.
- `toLowerCase` is modelled for ASCII letters only.
- A `double` is its 64 raw bits.
- `Double.parseDouble` is a parameter of `addProduct`: a function from the trimmed text to the bits of the value, or `None` for a `NumberFormatException`.

## Model

| member | source | states |
|---|---|---|
| Products.PadString | src/Product.java:55-64 | the result has exactly `length` code units; a longer input is cut to its first `length` units; a shorter one is kept as a prefix, followed only by spaces; the result is `Padded(s, length)` |
| Products.PaddedIdempotent | src/Product.java:55-64 | padding an already padded string to the same width changes nothing |
| Products.Product.constructor | src/Product.java:13-18 | the four arguments are stored unchanged |
| Products.Product.SetName | src/Product.java:24-26 | the name becomes the argument; description, id and cost keep their values |
| Products.Product.SetDescription | src/Product.java:32-34 | the description becomes the argument; the other three fields keep their values |
| Products.Product.SetProductID | src/Product.java:40-42 | the id becomes the argument; the other three fields keep their values |
| Products.Product.SetCost | src/Product.java:48-50 | the cost becomes the argument; the other three fields keep their values |
| Products.Product.GetNameForRandom | src/Product.java:69-71 | exactly 35 code units: the name padded or cut by `padString` |
| Products.Product.GetDescriptionForRandom | src/Product.java:76-78 | exactly 75 code units: the description padded or cut |
| Products.Product.GetProductIDForRandom | src/Product.java:83-85 | exactly 6 code units: the id padded or cut |
| RecordFormat.AsciiRecordSize | src/Product.java:10-11 | with plain ASCII fields every record is 130 bytes, and `RECORD_SIZE` is 240, which differs |
| JavaString.Trim | src/RandProductMaker.java:140-162 | `String.trim` never lengthens its input; `TrimSpec` and `TrimIsTrimmed` fix what it returns |
| JavaString.TrimSpec | src/RandProductMaker.java:160-162 | `trim` returns the infix left after dropping code units ≤ U+0020, and only those, from both ends |
| JavaString.TrimIsTrimmed | src/RandProductMaker.java:160-162 | what `trim` returns has no code unit ≤ U+0020 at either end |
| JavaString.TrimIdempotent | src/RandProductMaker.java:160-162 | trimming a trimmed string changes nothing |
| JavaString.TrimIgnoresPadding | src/RandProductSearch.java:126-128 | the space padding `padString` appends never changes what `trim` returns |
| JavaString.TrimDropsPadding | src/RandProductSearch.java:126-128 | a trimmed field padded with spaces trims back to itself |
| JavaString.Lower | src/RandProductSearch.java:131 | the same length, with 'A'..'Z' mapped to 'a'..'z' at every position and all else kept |
| JavaString.LowerIdempotent | src/RandProductSearch.java:131 | lower-casing a lower-cased string changes nothing |
| ModifiedUtf8.EncodedLengthBounds | src/RandProductMaker.java:166-168 | every code unit takes one to three bytes |
| ModifiedUtf8.AsciiEncodedLength | src/RandProductMaker.java:166-168 | plain ASCII takes one byte per code unit |
| ModifiedUtf8.EncodeChar | src/RandProductMaker.java:166-168 | one code unit takes as many bytes as its size class gives |
| ModifiedUtf8.Encode | src/RandProductMaker.java:166-168 | the encoded bytes number the count `writeUTF` puts in its prefix |
| ModifiedUtf8.DecodeChar | src/RandProductSearch.java:126-128 | a decoded code unit takes one byte or more and no more bytes than there are |
| ModifiedUtf8.Decode | src/RandProductSearch.java:126-128 | `readUTF`'s decoding yields at most one code unit per byte, or fails on malformed bytes; `DecodeEncode` shows it undoes the encoding |
| ModifiedUtf8.DecodeEncodeChar | src/RandProductSearch.java:126-128 | the bytes of one code unit decode to that code unit and take its size, whatever follows |
| ModifiedUtf8.DecodeEncode | src/RandProductSearch.java:126-128 | `readUTF`'s decoding undoes `writeUTF`'s encoding for every string |
| RandomAccess.FromBigEndianInverse | src/RandProductSearch.java:129 | big-endian bytes read back give the number written |
| RandomAccess.LengthPrefix | src/RandProductMaker.java:166-168 | the two prefix bytes, high byte first, spell the byte count |
| RandomAccess.UtfField | src/RandProductMaker.java:166-168 | `writeUTF` emits two bytes plus the encoded length |
| RandomAccess.DoubleField | src/RandProductMaker.java:169 | `writeDouble` emits eight bytes |
| RandomAccess.UtfFrom | src/RandProductSearch.java:126-128 | a read that succeeds or meets malformed bytes consumes at least two bytes, all inside the file |
| RandomAccess.DoubleFrom | src/RandProductSearch.java:129 | a read that succeeds takes exactly eight bytes inside the file; it is never malformed |
| RandomAccess.FieldBytes | src/RandProductMaker.java:166-168 | what `writeUTF(s)` emits is a field whose prefix counts the bytes after it and whose bytes decode to `s` |
| RandomAccess.ReadUtfBytes | src/RandProductSearch.java:126-128 | `readUTF` at a field holding `s` returns `s` and consumes the whole field, whatever surrounds it |
| RandomAccess.ReadUtfCutBytes | src/RandProductSearch.java:126-128 | a file that ends inside a field makes `readUTF` hit end of file |
| RandomAccess.ReadUtfField | src/RandProductSearch.java:126-128 | `readUTF` returns what `writeUTF` wrote |
| RandomAccess.ReadUtfCutField | src/RandProductSearch.java:126-128 | a file that ends inside what `writeUTF` wrote reads as end of file |
| RandomAccess.ReadDoubleField | src/RandProductSearch.java:129 | `readDouble` returns the bits `writeDouble` wrote, whatever surrounds them |
| RandomAccess.Overwrite | src/RandProductMaker.java:166-169 | a write at the pointer: the new length is the larger of the old length and the write's end; bytes before the pointer and past the written region keep their values; the written region holds the bytes written |
| RandomAccess.OverwriteTwice | src/RandProductMaker.java:166-169 | two writes in a row are one write of both byte strings |
| RandomAccess.OverwriteFront | src/RandProductMaker.java:122 | writing over the front of a file with as many bytes leaves the rest of it |
| RandomAccess.OverwriteShorterFront | src/RandProductMaker.java:122 | writing fewer bytes over the front part of a file leaves that part's remaining bytes and everything after it |
| RandomAccess.RandomFile.Open | src/RandProductMaker.java:122 | an opened file holds its contents with the pointer at 0 |
| RandomAccess.RandomFile.Write | src/RandProductMaker.java:166-169 | the bytes are overwritten from the pointer on and the pointer moves past them |
| RandomAccess.RandomFile.WriteUTF | src/RandProductMaker.java:166-168 | succeeds exactly when the encoding fits 65535 bytes, then writes the field and advances; otherwise changes nothing |
| RandomAccess.RandomFile.WriteDouble | src/RandProductMaker.java:169 | writes the eight cost bytes at the pointer and advances by eight |
| RandomAccess.RandomFile.ReadUTF | src/RandProductSearch.java:126-128 | returns the read at the pointer; the bytes are unchanged; the pointer moves past the field, or to the end on end of file |
| RandomAccess.RandomFile.ReadDouble | src/RandProductSearch.java:129 | returns the eight-byte read at the pointer; the pointer moves past it, or to the end on end of file |
| RecordFormat.RecordBytes | src/RandProductMaker.java:166-169 | the bytes of one add: the three padded text fields through `writeUTF`, then the cost; from 130 to 362 bytes |
| RecordFormat.Stored | src/RandProductMaker.java:160-169 | what a search reads back for an added record: trimmed fields within their widths, and the same cost |
| RecordFormat.FieldFits | src/RandProductMaker.java:166-168 | a padded field never exceeds `writeUTF`'s 65535-byte limit |
| RecordFormat.TrimPadded | src/RandProductSearch.java:126-128 | trimming a padded field is trimming the field cut to its width |
| RecordFormat.StoredFields | src/RandProductMaker.java:160-168 | each text field read back is the input cut to its width and trimmed; the cost comes back unchanged |
| RecordFormat.StoredFits | src/RandProductMaker.java:160-168 | a record whose trimmed fields fit their widths is read back exactly as written |
| RecordFormat.ReadFields | src/RandProductSearch.java:126-129 | the rest of a record, once read, ends inside the file and at least eight bytes plus two per text field still to read past the pointer |
| RecordFormat.ReadField | src/RandProductSearch.java:126-137 | the same bound for a record with a text field still to read; a field read at end of file ends the record as end of data, malformed bytes fail it, and a field read successfully goes on to the next with its trimmed text |
| RecordFormat.DecodeRecord | src/RandProductSearch.java:124-129 | a record read ends inside the file and at least 14 bytes past where it began, so the loop terminates |
| RecordFormat.ReadFieldsTrimmed | src/RandProductSearch.java:126-128 | once the fields read so far are trimmed, every field of the resulting record is |
| RecordFormat.DecodedTrimmed | src/RandProductSearch.java:126-128 | every decoded record has trimmed text fields |
| RecordFormat.RecordLayout | src/RandProductMaker.java:166-169 | a record's bytes are three well-formed `writeUTF` fields of the padded texts, then the cost |
| RecordFormat.DecodeFields | src/RandProductSearch.java:126-129 | three fields and a cost read back make the record of the trimmed texts, and the pointer moves past all four |
| RecordFormat.DecodeRecordBytes | src/RandProductSearch.java:126-129 | decoding a written record yields its stored form and moves exactly past its bytes, whatever surrounds them |
| RecordFormat.DecodeCutRecord | src/RandProductSearch.java:124-137 | a file ending partway into a record, even inside a length prefix or the cost, reads as end of file, never as malformed |
| RecordFormat.StoredAllAt | src/RandProductSearch.java:126-134 | the i-th stored record is the stored form of the i-th record written |
| RecordFormat.EncodedSnoc | src/RandProductMaker.java:166-169 | one more add appends its record's bytes after those of the earlier ones |
| RecordFormat.EncodedConcat | src/RandProductMaker.java:166-169 | two runs of adds write the bytes of the first run followed by those of the second |
| RecordFormat.EncodedSameSize | src/RandProductMaker.java:166-169 | runs of records of pairwise equal sizes take the same number of bytes |
| ProductSearch.SearchTerm | src/RandProductSearch.java:112 | the term is as long as the trimmed search text |
| ProductSearch.NameMatches | src/RandProductSearch.java:131 | a name can only match a term no longer than itself |
| ProductSearch.Filter | src/RandProductSearch.java:131-134 | a product is kept if and only if it is in the input and its lower-cased name contains the term; never more than the input |
| ProductSearch.FilterConcat | src/RandProductSearch.java:121-134 | matches keep file order: those of a concatenation are those of each part, in order |
| ProductSearch.FilterAllMatch | src/RandProductSearch.java:131-134 | when every name matches, all products are kept in order |
| ProductSearch.Records | src/RandProductSearch.java:121-141 | the records of a file decoded in order until the end, a cut record or malformed bytes; each takes at least 14 bytes, so there are at most a fourteenth as many as bytes |
| ProductSearch.SearchResult | src/RandProductSearch.java:111-141 | no search exactly when the trimmed term is empty; otherwise every match has a name containing the term, and there are at most a fourteenth as many matches as bytes |
| ProductSearch.ReadTextField | src/RandProductSearch.java:126-128 | one `readUTF().trim()`: the bytes are unchanged; the record goes on with the trimmed text, or ends as the reads prescribe |
| ProductSearch.ReadRecord | src/RandProductSearch.java:126-129 | the four reads return `DecodeRecord` at the old pointer, leave the bytes unchanged, and on a record leave the pointer just past it |
| ProductSearch.ScanRecord | src/RandProductSearch.java:124-134 | the loop invariant survives a decoded record |
| ProductSearch.ScanEnd | src/RandProductSearch.java:124-137 | at the end of the file or on end of file inside a record, the records decoded so far are all there are |
| ProductSearch.ScanBad | src/RandProductSearch.java:159-165 | a malformed record means the file's listing is malformed |
| ProductSearch.SearchProducts | src/RandProductSearch.java:111-166 | a blank term reads nothing; otherwise the method returns exactly the matching records of the file in order, or the read failure |
| ProductSearch.RecordsTrimmed | src/RandProductSearch.java:126-128 | every record a scan lists has trimmed text fields |
| ProductSearch.SearchFindsMatches | src/RandProductSearch.java:112-134 | a record is among the matches if and only if the file holds it and its lower-cased name contains the lower-cased, trimmed term; every match has trimmed fields |
| ProductSearch.RecordsOfEncoded | src/RandProductSearch.java:124-134 | records written one after another read back as their stored forms, followed by whatever comes after them |
| ProductSearch.StoredAllFits | src/RandProductMaker.java:160-168 | records whose fields fit are stored as they are |
| ProductSearch.EncodedFileRecords | src/RandProductSearch.java:124-137 | a file of exactly records `ws` lists their stored forms, with no error |
| ProductSearch.WrittenFileRecords | src/RandProductSearch.java:124-137 | a file of records that fit decodes to exactly those records, with no error |
| ProductSearch.SearchWrittenFile | src/RandProductSearch.java:126-133 | searching written records that fit returns exactly the matching ones, with the values written, in write order |
| ProductSearch.SearchWrittenFileAll | src/RandProductSearch.java:126-133 | with a term every name contains, the search returns every record written, in write order |
| ProductSearch.TruncatedRecordDropped | src/RandProductSearch.java:135-136 | a truncated last record is dropped and the search still succeeds with the matches among the complete records |
| ProductSearch.MalformedBytesAbandonSearch | src/RandProductSearch.java:159-165 | any record that fails to decode as modified UTF-8 after the complete records abandons the search and discards the matches found before it |
| ProductSearch.MalformedFieldAbandonsSearch | src/RandProductSearch.java:159-165 | such bytes exist: a name field announcing one byte that is a bare continuation byte abandons the search, whatever follows |
| ProductSearch.EmptyFileNoMatches | src/RandProductSearch.java:124-141 | an empty file gives an empty match list, not an error |
| ProductSearch.BlankTermReadsNothing | src/RandProductSearch.java:112-118 | a term blank after `trim` gives no search, whatever the file holds |
| ProductMaker.WithDatSuffix | src/RandProductMaker.java:118-120 | the path ends in ".dat" in every letter case; one already ending so is kept; any other gets ".dat" appended |
| ProductMaker.WithDatSuffixIdempotent | src/RandProductMaker.java:118-120 | applying the rule twice is applying it once |
| ProductMaker.Validate | src/RandProductMaker.java:140-157 | a missing field if and only if some trimmed input is empty; an invalid cost if and only if all are present and the cost does not parse; otherwise the record of the trimmed fields and the parsed cost |
| ProductMaker.ValidatedFieldsTrimmed | src/RandProductMaker.java:160-164 | every record added has trimmed, non-empty text fields |
| ProductMaker.SessionFile | src/RandProductMaker.java:122 | the file after a session's adds from pointer 0: it holds the records written at its front, keeps the old bytes past them, and has the larger of the two lengths |
| ProductMaker.SessionFileEmpty | src/RandProductMaker.java:122 | with nothing added, the file is as it was opened |
| ProductMaker.SessionFileSnoc | src/RandProductMaker.java:166-169 | each add writes its record right after the earlier ones |
| ProductMaker.SessionFileFresh | src/RandProductMaker.java:122 | in a file the session created, the bytes are exactly the records added |
| ProductMaker.FreshSessionSearch | src/RandProductMaker.java:160-169 | searching a new file after adds whose fields fit returns exactly the matching records added, in order |
| ProductMaker.SessionKeepsOldTail | src/RandProductMaker.java:122 | adding records to an existing file overwrites from the front; when each new record is as long in bytes as the old one it covers, the old records past the new ones stay in place |
| ProductMaker.SessionSearchSeesOldTail | src/RandProductMaker.java:122 | under the same equal-size condition, a later search also finds the stale old records after the new ones |
| ProductMaker.ShorterRecordLeavesStaleBytes | src/RandProductMaker.java:122 | a new record shorter than the old one it covers is followed by that old record's last bytes, so the file is not the new record followed by the other old ones |
| ProductMaker.OverwriteFour | src/RandProductMaker.java:166-169 | the four writes of an add are one write of the four byte strings |
| ProductMaker.WriteRecord | src/RandProductMaker.java:166-169 | the four writes put the record's bytes at the pointer and advance it by their count |
| ProductMaker.RandProductMaker.constructor | src/RandProductMaker.java:118-122 | the path follows the ".dat" rule, a new file object owned by the maker is opened at pointer 0 over the existing bytes, and `recordCount` starts at 0 |
| ProductMaker.RandProductMaker.AddProduct | src/RandProductMaker.java:139-187 | the outcome is `Validate`'s; a rejected input changes nothing; a valid one writes the record at the pointer, advances the pointer by the record's byte count, appends it to the session's records and increments `recordCount` by one |
| ProductMaker.RandProductMaker.Append | src/RandProductMaker.java:164-171 | the `Product`, its four writes and the count increment, keeping the session invariant |

## Left out

- The Swing user interface is not modelled: frames, layouts, buttons, listeners, `JOptionPane` dialogs, field clearing and focus, and the record-count text field. It is presentation with no invariant about the file.
- `JFileChooser`, `System.exit` and the cancel path of `selectFile` are not modelled. The constructor models a successful `selectFile` only, taking the chosen path and the file's existing bytes as parameters.
- `close`, `closeAndExit` and try-with-resources are left out. The file is an in-memory byte sequence.
- I/O errors raised by the operating system are not modelled: a missing file for the search, disk full, permissions. In the model every write succeeds, so the `IOException` handler of `addProduct` (`src/RandProductMaker.java:183-186`) never runs. The one non-EOF `IOException` the search can meet from file contents, malformed modified UTF-8, is modelled.
- `Double.parseDouble` is a parameter, and the cost is its raw 64 bits. Floating point is not modelled, nor is the `%.2f` formatting of the results (`src/RandProductSearch.java:143-156`).
- `toCSV`, `toJSON`, `toXML` and `toString` of `Product` are display strings and are not modelled.
- `toLowerCase` is modelled for ASCII letters only. Other letters keep their case, which differs from Java's locale-dependent mapping.
- The getters `getName`, `getDescription`, `getProductID` and `getCost` are not separate members. The fields of `Products.Product` are read directly; the getters do nothing else.
- ProductMaker.RandProductMaker.AddProduct: `recordCount` is a `nat`. The Java `int` wrap-around past 2^31 - 1 adds would need that many records and is not modelled.
