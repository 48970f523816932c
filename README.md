# GGML header check, in Dafny

`ggml_check.py` reports the container format and version of GGML model files. From the start of a file it reads at most eight bytes:

- the first four bytes are a magic, looked up verbatim in a three-entry table (`lmgg` is ggml, `tjgg` is ggjt, `fmgg` is ggmf), and any other magic is "unknown";
- a file shorter than four bytes is plain "unknown";
- the magic `lmgg` is "ggml (unversioned)", and nothing more is read;
- for every other magic, the next four bytes are a little-endian signed 32-bit version (`struct.unpack("<i")`). A file with fewer than four version bytes is plain "unknown". Otherwise the report is the format name (possibly "unknown") followed by the version.

The model has five modules:

- `Bytes` (`bytes.dfy`): bytes as integers in [0, 256).
- `LittleEndian` (`little_endian.dfy`): the int32 decoder `DecodeI32LE`. Beside it are a reference definition (`UnsignedLE`, the unsigned little-endian value, then `ToSigned32`, its two's-complement reading) and the inverse `EncodeI32LE`.
- `GgmlFormats` (`ggml_formats.dfy`): the magic table as a `map`, the lookup `FormatOf` and its inverse `MagicOf`.
- `ByteStream` (`byte_stream.dfy`): an open file as a `Reader` class with a cursor. Its `Read(n)` returns `min(n, remaining)` bytes and advances the cursor.
- `GgmlCheck` (`ggml_check.dfy`): the report as a datatype `Outcome` (`Unknown`, `Unversioned`, `Versioned(format, version)`). `Classify` gives the outcome as a function of the file contents. `CheckStream` performs the same check as the program does, with two successive reads. Its contract ties the method to `Classify` and gives the final cursor position (`Consumed`). `CheckFile` opens a reader on given contents and runs `CheckStream`. `LengthClassOf` sorts files into the three length ranges the check tells apart. The remaining members of the module are lemmas about `Classify`.

An unrecognised magic does not return early (ggml_check.py:42, 47-52). With eight or more bytes the report is "unknown <version>", not plain "unknown". The model keeps this as `Versioned(UnknownFormat, v)`; see `VersionedIff`, `EveryOutcomeIsReachable` and `SwappedMagicExample`.

## Model

| member | source | states |
|---|---|---|
| `LittleEndian.DecodeI32LE` | ggml_check.py:50 | the decoded version is an int32, and it is negative exactly when the sign bit (bit 7 of the fourth byte) is set |
| `LittleEndian.UnsignedLE` | ggml_check.py:50 | reference little-endian reading: the value of n bytes is below 256^n |
| `LittleEndian.ToSigned32` | ggml_check.py:50 | the two's-complement reading of a 32-bit unsigned number is the unique int32 congruent to it modulo 2^32 |
| `LittleEndian.DecodeIsTwosComplement` | ggml_check.py:50 | `struct.unpack("<i")` equals the reference reading: unsigned little-endian value, then two's complement |
| `LittleEndian.UnsignedOfToBytes` | ggml_check.py:50 | writing a number into n little-endian bytes and reading them back gives the number, when it fits |
| `LittleEndian.ToBytesOfUnsigned` | ggml_check.py:50 | reading a byte string and writing it back out gives the same bytes |
| `LittleEndian.DecodeEncode` | ggml_check.py:50 | every int32, negative ones included, decodes back from its four-byte encoding |
| `LittleEndian.EncodeDecode` | ggml_check.py:50 | every four bytes are the encoding of their decoded value |
| `LittleEndian.DecodeInjective` | ggml_check.py:50 | different version bytes decode to different versions |
| `GgmlFormats.FormatOf` | ggml_check.py:26-30 | the lookup is ggml exactly for `lmgg`, ggjt exactly for `tjgg`, ggmf exactly for `fmgg`, and "unknown" for every other byte string |
| `GgmlFormats.Name` | ggml_check.py:26-30 | the format strings of the table and the lookup's default "unknown"; each known format's magic is its name reversed |
| `GgmlFormats.NameInjective` | ggml_check.py:26-30 | the format names are distinct, so comparing names is comparing formats |
| `GgmlFormats.GgmlNameIffLmgg` | ggml_check.py:42-44 | the test `format == "ggml"` holds exactly when the magic is `lmgg` |
| `GgmlFormats.MagicOf` | ggml_check.py:26-30 | each known format has a four-byte magic that the lookup maps back to it |
| `GgmlFormats.MagicOfFormatOf` | ggml_check.py:26-30 | a recognised magic is the one magic of its format |
| `GgmlFormats.ByteSwappedMagicIsUnknown` | ggml_check.py:26-30 | no byte swapping: a table magic with its bytes reversed is not recognised |
| `ByteStream.Reader.constructor` | ggml_check.py:38 | a newly opened file has its cursor at offset 0 |
| `ByteStream.Reader.Read` | ggml_check.py:47 | `fp.read(n)` returns the next min(n, remaining) bytes and advances the cursor past them |
| `GgmlCheck.Classify` | ggml_check.py:39-52 | a reported version is always an int32, and never comes with the ggml format |
| `GgmlCheck.Consumed` | ggml_check.py:39-47 | the check reads neither past the end of the file nor past offset 8, and it reads exactly 4 bytes when the file is unversioned |
| `GgmlCheck.ShortInputIsUnknown` | ggml_check.py:39-41 | any file shorter than 4 bytes is plain Unknown |
| `GgmlCheck.UnversionedIff` | ggml_check.py:42-45 | Unversioned exactly when the file has at least 4 bytes and starts with `lmgg`, whatever follows |
| `GgmlCheck.UnknownIff` | ggml_check.py:39-49 | plain Unknown exactly when the file is shorter than 4 bytes, or the magic is not `lmgg` and the file is shorter than 8 bytes; this includes a recognised versioned magic |
| `GgmlCheck.VersionedIff` | ggml_check.py:42-52 | a version is reported exactly when the magic is not `lmgg` and there are 8 bytes; the format is the table lookup of bytes 0-4, "unknown" included, and the version is the int32 in bytes 4-8 |
| `GgmlCheck.VersionedHeaderRoundTrip` | ggml_check.py:47-52 | any magic other than `lmgg`, followed by the encoding of any int32 and any further bytes, is reported with that magic's format and exactly that version |
| `GgmlCheck.EveryOutcomeIsReachable` | ggml_check.py:39-52 | each of the reports Unknown, Unversioned, and a non-ggml format with an int32 version comes from some file of at most 8 bytes |
| `GgmlCheck.PrefixDetermines` | ggml_check.py:39-52 | two files get the same report if they are in the same length class (<4, 4-7, >=8) and agree on their first min(8, length) bytes |
| `GgmlCheck.TrailingBytesIgnored` | ggml_check.py:47-52 | bytes after the eighth never change the report |
| `GgmlCheck.ReadBytesDetermine` | ggml_check.py:39-52 | two files from which the check reads the same bytes get the same report |
| `GgmlCheck.VersionBytesMatter` | ggml_check.py:47-52 | with the same magic (not `lmgg`), different version bytes give different reports |
| `GgmlCheck.LmggFileExample` | ggml_check.py:39-45 | the 4-byte file 6C 6D 67 67 is Unversioned |
| `GgmlCheck.GgmfVersionExample` | ggml_check.py:47-52 | `fmgg` followed by 03 00 00 00 is ggmf version 3 |
| `GgmlCheck.GgjtZeroVersionExample` | ggml_check.py:47-52 | `tjgg` followed by four zero bytes is ggjt version 0 |
| `GgmlCheck.GgjtNegativeVersionExample` | ggml_check.py:47-52 | `tjgg` followed by FF FF FF FF is ggjt version -1 |
| `GgmlCheck.TruncatedVersionExample` | ggml_check.py:47-49 | a 6-byte file starting with `fmgg` is plain Unknown |
| `GgmlCheck.SwappedMagicExample` | ggml_check.py:42-52 | the magic `ggml` (the bytes of `lmgg` reversed) is not recognised, but its version is still reported |
| `GgmlCheck.CheckStream` | ggml_check.py:39-52 | the two reads from a file opened at offset 0 give `Classify` of its contents, and the cursor ends at `Consumed`, which is at most 8 and at most the file length |
| `GgmlCheck.CheckFile` | ggml_check.py:38-52 | opening a file with given contents and checking it gives `Classify` of the contents |

## Left out

- The assertions that the path exists and is a regular file or a symlink (ggml_check.py:34-35): these query the file system. The model starts from the file's contents.
- Symlink resolution, opening the file and read errors (ggml_check.py:36-39, 47): these are file-system I/O. `fp.read` can raise `OSError`; `Reader.Read` never fails. `CheckFile` takes the contents the opened file would yield. One level of `readlink()` is not modelled, nor that the program resolves a relative link target against the working directory.
- Closing the file at the end of the `with` block: this is resource handling with no effect on the result.
- The command-line loop and `print` (ggml_check.py:55-61): this is glue code.
- The decimal rendering of the report (ggml_check.py:45, 52): the report is kept as the `Outcome` datatype. Format names are given by `GgmlFormats.Name`; the version stays an integer.
- The extended header record (vocabulary size and the other hyperparameters) and the type-tag name table: no code for them appears in ggml_check.py.
