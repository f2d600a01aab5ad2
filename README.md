# arma-pbo-manager: the PBO archive codec, in Dafny

An Arma PBO archive is a list of header records followed by the entries'
payloads and a signature. Each header record is laid out as the entry's path
and a NUL, then five little-endian uint32 fields: packing method, original
size, reserved, timestamp and data size. A record of 21 zero bytes ends the
list. The archive's first record is the Header entry, tagged with the Version
packing method. After its five fields it carries a property block: each key
and a NUL, each truthy value and a NUL, and finally a lone NUL. The payloads
follow the terminator. The archive ends with a NUL and the SHA-1 digest of
every byte written before the digest.

This project models the JavaScript implementation's core in five modules.

- `Constants` (`constants.dfy`) holds the packing-method tags and the record
  and buffer sizes.
- `Utilities` (`utilities.dfy`) has the byte primitives of
  `src/utilities.js`:
  - `convertToBuffer`;
  - the scan that reads one byte at a time until the bytes read contain a
    terminator (`readUntilMatch`);
  - the exact-length read (`readAdditional`);
  - the little-endian uint32 codec these rely on.

  A file handle is the byte sequence it reads.
- `HeaderProperties` (`header.dfy`) holds the Header's ordered properties and
  the bytes of its property block.
- `Entries` (`entry.dfy`) holds the header record as a value with its
  encoder and parser, and the class `Entry`:
  - the fields `src/Entry.js` updates in place;
  - the children of a directory, built from a stat record;
  - `getHeaderData`, `readHeaderData`, `readData`, `getData`, `setFile`,
    `isNull`, `getSize` and `getOriginalSize`;
  - the named constructor `Header` for the Version-tagged entry of
    `src/Header.js`.
- `Writer` (`writer.dfy`) holds the class `PboWriter` of `src/PboWriter.js`,
  with:
  - the output and the bytes fed to the hash as sequence fields;
  - `#writeData`, `#writeHeader`, `#writeFile`, `pack` and `addFile` as
    methods.

### How the writer is specified

Each method of the writer is proved against a specification of what it
writes. That specification is a sequence of `Step`s: one per `#writeData`
call, or an error thrown between calls. `Emit` gives the bytes such a run
leaves in the file and the error, if any, that stopped it. The invariant
`Wrote` ties the object's state to a run:
- the output grew by the run's bytes;
- the hash input grew by the same bytes while `#checksum` is a Hash;
- the error the method reports is the one that stopped the run.

Lemmas then state what the runs mean:
- the run of `#writeHeader` for a leaf writes exactly `getHeaderData()`, and
  those bytes parse back with `readHeaderData`;
- the Header's run appends the property block;
- a directory writes the records and copies the files of its leaves, in the
  same depth-first order;
- a file is copied as `#writeFile` does it, in whole 4096-byte buffers, so
  its payload is its contents followed by zeros up to the next multiple of
  4096 (see "Findings");
- `pack` ends the archive with a NUL and the digest of every byte before the
  digest.

### Source and model disagreements

- `src/constants.js:18-24` does not export `NULL_TERM`, `UINT32_LENGTH` or
  `EMPTY_BUFFER`, although `src/Entry.js` and `src/utilities.js` import
  them. The model gives them their evident values: one zero byte, 4 and the
  empty sequence.
- `isNull` (`src/Entry.js:145-153`) ignores the packing method. So a fresh
  Header is null, and so is the 21-zero terminator, which parses with packing
  method 0 (Uncompressed), not Null.
- `readHeaderData` never parses a Header's property block. No round trip is
  claimed for a Header record; `WrittenRecordDecodes` is stated for ordinary
  leaves only.

## Model

| member | source | states |
|---|---|---|
| Constants.PackingMethodTags | src/constants.js:10-16 | the five packing-method tags are pairwise distinct and each fits a uint32; Uncompressed is 0 and Null is 0xffffffff |
| Constants.HeaderEntryDefaultSize | src/constants.js:8 | the smallest record is one NUL plus five 4-byte fields (21 bytes), so the parser reads 20 fixed bytes after the path |
| Utilities.LEToUint32 | src/Entry.js:67 | reading four bytes little-endian always gives a uint32 |
| Utilities.Uint32ToLE | src/utilities.js:13-14 | writing a uint32 gives four bytes that read back as the same number |
| Utilities.LEToUint32RoundTrip | src/utilities.js:13-15 | writing back the value of any four bytes gives the same four bytes |
| Utilities.Uint32ToLEInjective | src/utilities.js:13-15 | two uint32 values have the same encoding exactly when they are equal |
| Utilities.ConvertToBuffer | src/utilities.js:4-21 | a Buffer is returned unchanged; a string as its bytes plus one NUL, or without the NUL when nullTerminated is false; a number as 4 bytes reading back as it, and it throws exactly when the number is not a uint32; anything else gives undefined |
| Utilities.ContainsByte | src/utilities.js:31 | a one-byte pattern is included in a buffer exactly when the byte occurs in it |
| Utilities.ShortestMatchUnique | src/utilities.js:31-38 | the shortest non-empty prefix containing the match is unique |
| Utilities.FirstIndexFromSpec | src/utilities.js:31-38 | the first occurrence found has no occurrence before it, and none is found exactly when the byte does not occur |
| Utilities.ShortestMatchByte | src/utilities.js:31-38 | with a one-byte match, the shortest prefix ends at the first occurrence of that byte |
| Utilities.NoMatchByte | src/utilities.js:32-36 | when no prefix contains a one-byte match, the byte does not occur after the start |
| Utilities.ReadUntilMatch | src/utilities.js:28-43 | returns the shortest non-empty prefix of the input from `start` that contains the match, with index equal to its length; throws ReadFailed exactly when no such prefix exists |
| Utilities.ReadAt | src/utilities.js:59-64 | a read returns the bytes at the position, no more than asked for, and fewer only at the end of the input |
| Utilities.ReadAdditional | src/utilities.js:51-71 | with a positive length: the buffer followed by exactly `length` bytes read at `start`, failing exactly when fewer are available; otherwise the buffer unchanged |
| HeaderProperties.InitialProperties | src/Header.js:5-21 | the keys are prefix, product and version in that order; each value is its argument when that argument is truthy, else null |
| HeaderProperties.PropertyBlockNulCount | src/PboWriter.js:86-95 | with NUL-free keys and values, the block holds one NUL per key, one per truthy value, and one closing NUL |
| Entries.Listed | src/Entry.js:138-141 | the children's names are the directory listing without '.' and '..', nothing else |
| Entries.ListedAppend | src/Entry.js:138-141 | the filter keeps the listing's order: the listing of two parts is the two parts' listings one after the other |
| Entries.ListedSingle | src/Entry.js:140 | a single name is kept, once, exactly when it is neither '.' nor '..' |
| Entries.EncodeRecord | src/Entry.js:35-49 | the record is the path, a NUL, then the five fields as little-endian uint32 in order, |path| + 21 bytes; it throws OutOfRange exactly when a field is not a uint32 |
| Entries.DecodeRecordOk | src/Entry.js:50-82 | a successful parse takes the path up to the first NUL after the cursor and the five fields from the 20 bytes after it, and returns those bytes and the cursor past them |
| Entries.DecodeRecordErr | src/Entry.js:52-66 | parsing fails exactly when no NUL follows the cursor or fewer than 20 bytes follow the first NUL |
| Entries.RecordRoundTrip | src/Entry.js:35-82 | a record with a NUL-free path and uint32 fields, encoded and placed anywhere, parses back as the same record, with bytesRead its length and the cursor moved past it |
| Entries.TerminatorDecodes | src/PboWriter.js:132 | the 21 zero bytes after the records parse as an empty path with every field 0 |
| Entries.IndexOfSpec | src/Entry.js:57-58 | indexOf finds the first occurrence, and -1 exactly when there is none |
| Entries.Chunks | src/Entry.js:109-120 | every chunk handed to the callback is non-empty and at most 4096 bytes |
| Entries.ChunksFlatten | src/Entry.js:109-120 | the chunks concatenate back to the file's contents |
| Entries.ChunksCount | src/Entry.js:109-120 | there are ceil(size / 4096) chunks, so an empty file gives none |
| Entries.ChunksAt | src/Entry.js:110-115 | chunk i starts at i * 4096 and holds min(remaining, 4096) bytes |
| Entries.Entry.constructor | src/Entry.js:19-34 | the field initialisers, then setFile: defaults for a missing path; otherwise the stat mirrored, and for a directory one child per listed name, built from the joined path and rooted at the directory; a listed name whose path does not exist gives a child with the defaults |
| Entries.Entry.Header | src/Header.js:10-22 | an entry with no file, tagged Version, whose properties keep their null default unless the argument is truthy; its record path is empty, its size 0, and it is null |
| Entries.Entry.SetFile | src/Entry.js:123-144 | for an existing non-empty path: stores the path, root, both sizes, the time and Uncompressed, and leaves reserved and data alone; otherwise changes nothing |
| Entries.Entry.NewChildren | src/Entry.js:137-142 | one new entry per listed name, in listing order, each built from the joined path and rooted at the directory |
| Entries.Entry.MapChildren | src/Entry.js:141 | the map over the filtered names builds one entry per name, in order, each from the joined path and that path's stat, or with the defaults when the path does not exist |
| Entries.Entry.GetHeaderData | src/Entry.js:35-49 | the record starts with the record path and a NUL (a lone NUL when file or root is empty) and is |path| + 21 bytes long |
| Entries.Entry.HeaderDataRoundTrip | src/Entry.js:35-82 | the bytes of getHeaderData, placed at any cursor, parse back as this entry's path and five fields with the cursor moved past them |
| Entries.Entry.ReadHeaderData | src/Entry.js:50-82 | sets file to the bytes before the first NUL after the cursor and the five fields from the 20 bytes after it, and returns those bytes, their count and the cursor past them; fails with ReadFailed exactly when no NUL follows or fewer than 20 bytes follow it, having stored the path already when there is a NUL; agrees with the record parser |
| Entries.ScanPath | src/Entry.js:52-58 | the scan returns the bytes from the cursor through the first NUL after it, and fails with ReadFailed exactly when no NUL follows |
| Entries.Entry.ReadFixedPart | src/Entry.js:61-81 | appends the 20 bytes after the path's NUL, failing with ReadFailed exactly when fewer are left and then storing no field; stores the five fields read from them; returns the whole record and the cursor past it |
| Entries.Entry.ReadFields | src/Entry.js:67-76 | stores the five fields read at consecutive 4-byte offsets and advances the position by 20 |
| Entries.Entry.ReadData | src/Entry.js:83-100 | succeeds exactly when getSize() bytes are available at data_offset; then stores them, unless the entry is Compressed; throws SizeMismatch otherwise, leaving data unchanged |
| Entries.Entry.GetData | src/Entry.js:101-122 | hands out the file's chunks of min(remaining, 4096) bytes in order, and none for an empty path or a missing file |
| Entries.Entry.IsNull | src/Entry.js:145-153 | a null entry (empty path, zero sizes, reserved and time, whatever its packing method) has no record path and reports size 0 and original size 0 |
| Entries.Entry.GetSize | src/Entry.js:154-163 | only an Uncompressed or Compressed entry reports a non-zero size |
| Entries.Entry.GetOriginalSize | src/Entry.js:164-172 | only an Uncompressed or Compressed entry reports a non-zero original size, and never more than original_size |
| Entries.Entry.SizesByMethod | src/Entry.js:154-172 | getSize is data_size for Uncompressed and original_size for Compressed, and 0 for any other method; getOriginalSize is original_size for both, else 0; the two agree for every method but Uncompressed |
| Entries.Entry.NullRecord | src/Entry.js:145-153 | a null entry's record is a NUL, its packing method and 16 zero bytes, and for a null Uncompressed entry exactly the 21-byte terminator |
| Entries.SizesFromStat | src/Entry.js:123-172 | an entry filled in from an existing path has getSize() and getOriginalSize() equal to the stat's size, is never null, and has a record exactly when its size and time fit a uint32 |
| Writer.StepOutcome | src/PboWriter.js:41-57 | a write without a handle, or of a value that converts to undefined, writes nothing; a number that is not a uint32 throws; anything else writes its converted bytes |
| Writer.EmitAppend | src/PboWriter.js:66-96 | two runs of writes back to back: the second runs only when the first did not throw |
| Writer.EmitClosed | src/PboWriter.js:42-44 | before pack opens the handle, any run of writes writes nothing and throws nothing |
| Writer.PropertySteps | src/PboWriter.js:86-93 | the Header's property writes are all strings, so they never throw |
| Writer.PropertyStepsEmit | src/PboWriter.js:86-93 | the property writes emit exactly the key/value pairs of the property block |
| Writer.PropertyBlockStepsEmit | src/PboWriter.js:86-95 | the Header's part of #writeHeader emits exactly the property block |
| Writer.ChunkStepsEmit | src/PboWriter.js:111-117 | the evidently intended copy, one write of the bytes read per chunk, emits the chunks back to back and never throws |
| Writer.FileCopied | src/PboWriter.js:109-118 | the evidently intended copy, writing only the bytes each read returns, writes exactly the file's contents |
| Writer.PaddedChunkSteps | src/PboWriter.js:111-117 | the file copy as written: one write of a whole 4096-byte buffer per chunk |
| Writer.FileCopyStepsAreChunks | src/PboWriter.js:109-118 | the read loop, one read of up to 4096 bytes after another, writes one whole buffer per chunk of the file, in order |
| Writer.PaddedCopyOfOneByte | src/PboWriter.js:115 | a one-byte file is copied as 4096 bytes, although only one byte was read |
| Writer.ReadChunk | src/PboWriter.js:112-115 | one read of up to 4096 bytes at the position takes the next chunk of the file, and the write is of that chunk's whole zero-filled buffer |
| Writer.FilledBuffer | src/PboWriter.js:112-113 | a fresh zeroed 4096-byte buffer after a read of `got` holds `got` and then zeros |
| Writer.PadLength | src/PboWriter.js:111-117 | the zeros that fill the last buffer: fewer than 4096, and they bring the size to a multiple of 4096 |
| Writer.Payload | src/PboWriter.js:111-117 | what the copy writes starts with the file's contents and has a length that is a multiple of 4096, less than 4096 bytes longer than the file |
| Writer.FileCopiedAsWritten | src/PboWriter.js:109-118 | the read loop as written emits the file's payload (its contents, then zeros to the next multiple of 4096) and never throws |
| Writer.PayloadExact | src/PboWriter.js:115 | the copy reproduces the file exactly when its size is a multiple of 4096 |
| Writer.Leaves | src/PboWriter.js:70-75 | the entries #writeHeader reaches are the entry itself or its descendants |
| Writer.HeaderStepsAreLeafRecords | src/PboWriter.js:66-96 | #writeHeader writes the records of exactly the leaves, depth-first in listing order, and none for a directory itself |
| Writer.FileStepsAreLeafFiles | src/PboWriter.js:99-108 | #writeFile copies the files of the same leaves, in the same order |
| Writer.LeavesAreNotDirectories | src/PboWriter.js:70-75 | every leaf is a file entry or the Header, and a directory is not among its own leaves |
| Writer.WritesOfEmit | src/PboWriter.js:76-85 | writing values one by one emits what Buffer.concat of their conversions gives, and throws exactly when that throws, with the same error |
| Writer.FieldStepsEmit | src/PboWriter.js:76-85 | the five-field part of #writeHeader emits exactly getHeaderData(), and throws OutOfRange exactly when getHeaderData throws |
| Writer.RecordStepsEmit | src/PboWriter.js:76-95 | a leaf's record as written is getHeaderData(), followed for the Header by its property block; OutOfRange exactly when a field is not a uint32 |
| Writer.WrittenRecordDecodes | src/PboWriter.js:76-85 | the record written for an ordinary leaf, placed anywhere, parses back as that entry's path and five fields |
| Writer.RecordStepsOfEmit | src/PboWriter.js:66-96 | the records of several leaves are written in order when every field fits, and otherwise the run throws OutOfRange |
| Writer.HeaderStepsEmit | src/PboWriter.js:66-96 | #writeHeader on an entry writes its leaves' records in depth-first order, or throws OutOfRange when some field does not fit |
| Writer.FileLeafStepsEmit | src/PboWriter.js:109-118 | #writeFile on a leaf writes the file's payload (its contents in whole 4096-byte buffers, the last zero-filled), or throws FileMissing before writing when the file does not exist |
| Writer.FileLeafStepsOfEmit | src/PboWriter.js:103-118 | copying several leaves writes their payloads in order when every file exists, and throws FileMissing otherwise |
| Writer.FileStepsEmit | src/PboWriter.js:99-119 | #writeFile on an entry writes its leaves' payloads in depth-first order, or throws FileMissing when some file is missing |
| Writer.DispatchStepsEmit | src/PboWriter.js:135-147 | the data pass skips Version and Null entries, writes the leaves' payloads for Uncompressed ones (or throws FileMissing), and throws UnsupportedPackingMethod before writing for any other method |
| Writer.PackStepsEmit | src/PboWriter.js:128-147 | the body of pack is the header pass, then, unless it threw, 21 zero bytes and the data pass |
| Writer.PackSigned | src/PboWriter.js:155-158 | a first pack that completes reports true and ends with a NUL and the SHA-1 digest of every byte before the digest; the hashed bytes are the archive without its digest |
| Writer.PackFailed | src/PboWriter.js:148-153 | a pack whose body throws removes the archive and reports false; #checksum stays a Hash, having been fed the bytes written before the error, and nothing is digested |
| Writer.PboWriter.constructor | src/PboWriter.js:28-39 | the entries start as exactly one Header whose prefix and product are the archive's base name and whose version is the given time; nothing written, a fresh hash |
| Writer.PboWriter.AddFile | src/PboWriter.js:164-169 | throws FileMissing exactly when the path does not exist; otherwise appends one new entry for it, rooted at '/', keeping the earlier entries in order |
| Writer.PboWriter.WriteData | src/PboWriter.js:41-63 | appends the converted bytes to the output, and to the hash input while #checksum is a Hash; reports true exactly when a handle is open and the value converts to bytes; a number that is not a uint32 throws and writes nothing |
| Writer.PboWriter.WriteUnlessThrown | src/PboWriter.js:76-85 | one more write of a run is made only when none before it threw |
| Writer.PboWriter.WriteFields | src/PboWriter.js:76-85 | writes the record path and the five fields, stopping at the first that throws |
| Writer.PboWriter.WriteProperties | src/PboWriter.js:86-95 | writes the property block and never throws |
| Writer.PboWriter.WroteThen | src/PboWriter.js:66-96 | a run that did not throw followed by a second run is the two runs joined |
| Writer.PboWriter.WroteAbandon | src/PboWriter.js:127-148 | once a run has thrown, the writes after it are never made |
| Writer.PboWriter.WriteRecord | src/PboWriter.js:76-95 | writes a leaf's record, and the property block after it for the Header |
| Writer.PboWriter.WriteHeader | src/PboWriter.js:66-96 | writes the header run of the entry, expanding a directory into its children |
| Writer.PboWriter.WriteChildHeader | src/PboWriter.js:71-73 | writes one child's headers, the next part of the directory's run |
| Writer.PboWriter.WriteChildHeaders | src/PboWriter.js:71-74 | writes the children's headers in listing order until one throws |
| Writer.PboWriter.WriteFileContents | src/PboWriter.js:109-118 | writes a leaf's file run: FileMissing before any write for a path that does not exist, else one whole 4096-byte buffer per chunk of the file |
| Writer.PboWriter.CopyFile | src/PboWriter.js:110-117 | the read loop reads up to 4096 bytes into a fresh zeroed buffer and writes the whole buffer, chunk after chunk, until a read returns nothing |
| Writer.PboWriter.WriteFile | src/PboWriter.js:99-119 | writes the file run of the entry, expanding a directory into its children |
| Writer.PboWriter.WriteChildFile | src/PboWriter.js:104-106 | writes one child's files, the next part of the directory's run |
| Writer.PboWriter.WriteChildFiles | src/PboWriter.js:104-107 | writes the children's files in listing order until one throws |
| Writer.PboWriter.WriteEntryHeader | src/PboWriter.js:129-131 | writes one entry's headers, the next part of the header pass |
| Writer.PboWriter.WriteHeaders | src/PboWriter.js:129-131 | writes every entry's headers in order until one throws |
| Writer.PboWriter.WriteDispatched | src/PboWriter.js:136-146 | writes the data-pass run of one entry, according to its packing method |
| Writer.PboWriter.WriteEntryData | src/PboWriter.js:135-147 | writes one entry's data, the next part of the data pass |
| Writer.PboWriter.WriteFiles | src/PboWriter.js:135-147 | writes every entry's data in order until one throws |
| Writer.PboWriter.WriteBody | src/PboWriter.js:127-147 | writes the header pass, the terminator and the data pass, stopping at the first error |
| Writer.PboWriter.WriteSignature | src/PboWriter.js:155-158 | writes a NUL, which is hashed, replaces #checksum by the digest of everything hashed, and writes the digest unhashed; throws when #checksum is already a digest, after writing the NUL |
| Writer.PboWriter.Pack | src/PboWriter.js:121-163 | the new archive, hash input, digest and result are those the pack runs produce from the entries and the files (payloads in whole 4096-byte buffers): on an error the archive is removed and false reported; otherwise the signature follows |

## Left out

- The file system is given as data: `lstatSync` and `readdirSync` become a `Stat` record with its listing, each listed name carrying the stat of its joined path or none when `existsSync` rejects it, and `fsp.open` and file reads become a map from paths to contents. The `overrite` option, `fsp.rm` before packing and the exclusive `'wx'` open are not modelled; deleting the archive after an error is the flag `removed`.
- SHA-1 is a parameter of `Pack` (a function from bytes to 20 bytes), because it is library code.
- `path.join` and `path.basename` are uninterpreted functions whose joined result holds no NUL, because path normalisation is library behaviour.
- Timestamps: `Math.floor(mtimeMs / 1000)`, the `isNaN` fallback to `Date.now()` and the `Date.now()` version string of the Header are floating point and clock readings. The stat carries the time in whole seconds, and the version string is a constructor parameter.
- Strings are byte sequences: `toString()` and UTF-8 encoding are not modelled. Numbers are integers; a fractional number handed to `writeUint32LE` is not modelled.
- Writer.PboWriter.WriteDispatched: the data pass awaits `#writeFile`, although the source does not, so in the model its writes finish before the signature and a missing file is caught by the catch block. The interleaving of the unawaited writes with the signature, and the unhandled rejection, are not modelled, because the model has no concurrency.
- Writer.PboWriter.Pack: closing the handles is not modelled, so the handle stays open after pack. Writes made after a pack are therefore not refused, and a second pack starts a new archive while the hash keeps its state. `console.error` is left out.
- Writer.PboWriter.WriteData: `handle.write` is assumed to write all its bytes.
- Writer.PboWriter.WriteBody: a null entry (`if (!entry) return`) cannot occur in the model, because entries are objects.
- Compressed payloads: `readData` leaves `data` unchanged for them, as the source does, and there is nothing more to model.
- Utilities.ReadUntilMatch: the `BUFFER_MAX_LENGTH` preallocation is a memory detail; the buffer grows as bytes are read.
- `src/PboReader.js` (a stub that only checks the file exists), `src/index.js` (glue calling a method that does not exist) and `Entry.toString` are not part of this model.
- Unused constants (`DEFAULT_OPTIONS`, `SIGNATURE_BUFFER_SIZE`) are left out.

## Findings

| source | as written | input that shows it | evidently intended | confidence | as-written member | corrected member |
|---|---|---|---|---|---|---|
| src/PboWriter.js:115 | each chunk is written as the whole 4096-byte read buffer: with a Buffer argument, Buffer.from copies all of it and ignores the offset and length | a one-byte file holding 0x41: 4096 bytes are written (the byte and 4095 zeros) while its record announces a data size of 1 | write only the bytes read, so that the payload is the file's contents | not executed | Writer.PaddedCopyOfOneByte | Writer.FileCopied |

The writer keeps the copy as written: `WriteFileContents` and `Pack` write
whole 4096-byte buffers, and `FileCopiedAsWritten` and `PayloadExact` say
what that payload is. `ChunkSteps` and `FileCopied` state the intended copy
beside it.
