/**
 * The header check of a GGML model file: read at most eight bytes from the
 * start, look the first four up in the magic table, and for every magic but
 * "lmgg" read the next four as a little-endian int32 version.
 *
 * Classify is the outcome as a function of the file's contents; CheckStream
 * is the same check written, as the program does it, as two successive reads
 * from an open file.
 */
module GgmlCheck {
  import opened Bytes
  import opened LittleEndian
  import opened GgmlFormats
  import opened ByteStream

  /**
   * What the check reports: "unknown", "ggml (unversioned)", or a format name
   * (possibly "unknown") followed by a version.
   */
  datatype Outcome = Unknown | Unversioned | Versioned(format: Format, version: int)

  /** The outcome for a file whose contents are `contents`. */
  function Classify(contents: seq<Byte>): (r: Outcome)
    ensures r.Versioned? ==> r.format != Ggml && IsInt32(r.version)
  {
    if |contents| < 4 then Unknown
    else
      var format := FormatOf(contents[..4]);
      if format == Ggml then Unversioned
      else if |contents| < 8 then Unknown
      else Versioned(format, DecodeI32LE(contents[4], contents[5], contents[6], contents[7]))
  }

  /** How many bytes the check takes from the file: the cursor position when it returns. */
  function Consumed(contents: seq<Byte>): (n: nat)
    ensures n <= |contents| && n <= 8
    ensures Classify(contents) == Unversioned ==> n == 4
  {
    if |contents| < 4 then |contents|
    else if contents[..4] == LMGG then 4
    else Min(|contents|, 8)
  }

  /** Too short for a magic: plain Unknown, with no version. */
  lemma ShortInputIsUnknown(contents: seq<Byte>)
    requires |contents| < 4
    ensures Classify(contents) == Unknown
  {
  }

  /** Unversioned exactly when the file starts with "lmgg", whatever follows. */
  lemma UnversionedIff(contents: seq<Byte>)
    ensures Classify(contents) == Unversioned <==> |contents| >= 4 && contents[..4] == LMGG
  {
  }

  /**
   * Plain Unknown exactly when there is no whole magic, or the magic is not
   * "lmgg" and there is no whole version; a recognised versioned magic with a
   * truncated version is Unknown too.
   */
  lemma UnknownIff(contents: seq<Byte>)
    ensures Classify(contents) == Unknown <==>
      |contents| < 4 || (contents[..4] != LMGG && |contents| < 8)
  {
  }

  /**
   * A version is reported exactly when the magic is not "lmgg" and eight bytes
   * are present; the format is the table lookup of the magic, "unknown" for an
   * unrecognised one, and the version is the int32 in bytes 4 to 8.
   */
  lemma VersionedIff(contents: seq<Byte>)
    ensures Classify(contents).Versioned? <==> |contents| >= 8 && contents[..4] != LMGG
    ensures Classify(contents).Versioned? ==>
      Classify(contents).format == FormatOf(contents[..4]) &&
      Classify(contents).version == DecodeI32LE(contents[4], contents[5], contents[6], contents[7])
  {
  }

  /**
   * A header made of any magic but "lmgg" and the encoding of any int32
   * (negative ones included) is reported with that format and exactly that
   * version, whatever follows it.
   */
  lemma VersionedHeaderRoundTrip(magic: seq<Byte>, version: int, rest: seq<Byte>)
    requires |magic| == 4 && magic != LMGG
    requires IsInt32(version)
    ensures Classify(magic + EncodeI32LE(version) + rest) == Versioned(FormatOf(magic), version)
  {
    var contents := magic + EncodeI32LE(version) + rest;
    var bs := EncodeI32LE(version);
    assert contents[..4] == magic;
    assert contents[4] == bs[0] && contents[5] == bs[1] && contents[6] == bs[2] && contents[7] == bs[3];
    DecodeEncode(version);
  }

  /** Every report a file can produce, and no other, is produced by some header. */
  lemma EveryOutcomeIsReachable(r: Outcome)
    requires r.Versioned? ==> r.format != Ggml && IsInt32(r.version)
    ensures exists contents: seq<Byte> :: |contents| <= 8 && Classify(contents) == r
  {
    match r
    case Unknown =>
      assert Classify([]) == Unknown;
    case Unversioned =>
      assert Classify(LMGG) == Unversioned;
    case Versioned(format, version) =>
      var magic: seq<Byte> := if format == UnknownFormat then [0, 0, 0, 0] else MagicOf(format);
      VersionedHeaderRoundTrip(magic, version, []);
      assert Classify(magic + EncodeI32LE(version) + []) == r;
  }

  /** The three ranges of file length the check tells apart. */
  datatype LengthClass = NoMagic | NoVersion | Complete

  function LengthClassOf(contents: seq<Byte>): (c: LengthClass)
  {
    if |contents| < 4 then NoMagic else if |contents| < 8 then NoVersion else Complete
  }

  /**
   * Only the first eight bytes matter: two files in the same length class
   * that agree on their first min(8, length) bytes get the same report.
   */
  lemma PrefixDetermines(a: seq<Byte>, b: seq<Byte>)
    requires LengthClassOf(a) == LengthClassOf(b)
    requires var k := Min(8, Min(|a|, |b|)); a[..k] == b[..k]
    ensures Classify(a) == Classify(b)
  {
    var k := Min(8, Min(|a|, |b|));
    if |a| >= 4 {
      assert a[..4] == a[..k][..4] == b[..k][..4] == b[..4];
    }
    if |a| >= 8 {
      assert a[4] == a[..k][4] && b[4] == b[..k][4];
      assert a[5] == a[..k][5] && b[5] == b[..k][5];
      assert a[6] == a[..k][6] && b[6] == b[..k][6];
      assert a[7] == a[..k][7] && b[7] == b[..k][7];
    }
  }

  /** Bytes past the eighth are never looked at. */
  lemma TrailingBytesIgnored(contents: seq<Byte>, rest: seq<Byte>)
    requires |contents| >= 8
    ensures Classify(contents + rest) == Classify(contents)
  {
    PrefixDetermines(contents + rest, contents);
  }

  /**
   * The report is a function of the bytes the check actually read: two files
   * from which it reads the same bytes get the same report.
   */
  lemma ReadBytesDetermine(a: seq<Byte>, b: seq<Byte>)
    requires Consumed(a) == Consumed(b)
    requires a[..Consumed(a)] == b[..Consumed(b)]
    ensures Classify(a) == Classify(b)
  {
    var n := Consumed(a);
    if n >= 4 {
      assert a[..4] == a[..n][..4] == b[..n][..4] == b[..4];
    }
    if n == 8 {
      assert a[4] == a[..n][4] && b[4] == b[..n][4];
      assert a[5] == a[..n][5] && b[5] == b[..n][5];
      assert a[6] == a[..n][6] && b[6] == b[..n][6];
      assert a[7] == a[..n][7] && b[7] == b[..n][7];
    }
  }

  /**
   * Every version byte is read: two complete headers with the same magic
   * (not "lmgg") but different version bytes get different reports.
   */
  lemma VersionBytesMatter(a: seq<Byte>, b: seq<Byte>)
    requires |a| >= 8 && |b| >= 8
    requires a[..4] == b[..4] && a[..4] != LMGG
    requires a[4..8] != b[4..8]
    ensures Classify(a) != Classify(b)
  {
    assert a[4..8] == [a[4], a[5], a[6], a[7]];
    assert b[4..8] == [b[4], b[5], b[6], b[7]];
    if Classify(a) == Classify(b) {
      DecodeInjective(a[4], a[5], a[6], a[7], b[4], b[5], b[6], b[7]);
    }
  }

  /** A four-byte file holding 6C 6D 67 67 ("lmgg") is unversioned. */
  lemma LmggFileExample()
    ensures Classify([0x6C, 0x6D, 0x67, 0x67]) == Unversioned
  {
  }

  /** "fmgg" then 03 00 00 00 is ggmf version 3. */
  lemma GgmfVersionExample()
    ensures Classify([0x66, 0x6D, 0x67, 0x67, 3, 0, 0, 0]) == Versioned(Ggmf, 3)
  {
    var contents: seq<Byte> := [0x66, 0x6D, 0x67, 0x67, 3, 0, 0, 0];
    assert contents[..4] == FMGG;
    assert DecodeI32LE(3, 0, 0, 0) == 3;
  }

  /** "tjgg" then four zero bytes is ggjt version 0. */
  lemma GgjtZeroVersionExample()
    ensures Classify([0x74, 0x6A, 0x67, 0x67, 0, 0, 0, 0]) == Versioned(Ggjt, 0)
  {
    var contents: seq<Byte> := [0x74, 0x6A, 0x67, 0x67, 0, 0, 0, 0];
    assert contents[..4] == TJGG;
    assert contents[4] == 0 && contents[5] == 0 && contents[6] == 0 && contents[7] == 0;
    VersionedIff(contents);
  }

  /** "tjgg" then FF FF FF FF is ggjt version -1. */
  lemma GgjtNegativeVersionExample()
    ensures Classify([0x74, 0x6A, 0x67, 0x67, 0xFF, 0xFF, 0xFF, 0xFF]) == Versioned(Ggjt, -1)
  {
    var contents: seq<Byte> := [0x74, 0x6A, 0x67, 0x67, 0xFF, 0xFF, 0xFF, 0xFF];
    assert contents[..4] == TJGG;
    assert DecodeI32LE(0xFF, 0xFF, 0xFF, 0xFF) == -1;
  }

  /** "fmgg" with only two version bytes (a six-byte file) is plain Unknown. */
  lemma TruncatedVersionExample()
    ensures Classify([0x66, 0x6D, 0x67, 0x67, 1, 0]) == Unknown
  {
    var contents: seq<Byte> := [0x66, 0x6D, 0x67, 0x67, 1, 0];
    assert contents[..4] == FMGG;
  }

  /** The magic "ggml" (byte-swapped "lmgg") is not recognised, but its version is still reported. */
  lemma SwappedMagicExample()
    ensures Classify([0x67, 0x67, 0x6D, 0x6C, 1, 0, 0, 0]) == Versioned(UnknownFormat, 1)
  {
    var contents: seq<Byte> := [0x67, 0x67, 0x6D, 0x6C, 1, 0, 0, 0];
    assert contents[..4] == [0x67, 0x67, 0x6D, 0x6C];
    assert contents[..4][0] != LMGG[0] && contents[..4][0] != TJGG[0] && contents[..4][0] != FMGG[0];
  }

  /**
   * The body of `check_file` from the opened file on: read the magic, look it
   * up, return early for "lmgg", read the version, decode it.
   */
  method CheckStream(fp: Reader) returns (r: Outcome)
    requires fp.Valid() && fp.pos == 0
    modifies fp
    ensures fp.Valid()
    ensures r == Classify(fp.contents)
    ensures fp.pos == Consumed(fp.contents)
  {
    var magic := fp.Read(4);
    if |magic| < 4 {
      return Unknown;
    }
    var format := FormatOf(magic);
    if format == Ggml {
      return Unversioned;
    }
    var versionBytes := fp.Read(4);
    if |versionBytes| < 4 {
      return Unknown;
    }
    var version := DecodeI32LE(versionBytes[0], versionBytes[1], versionBytes[2], versionBytes[3]);
    return Versioned(format, version);
  }

  /** `check_file` on a file with the given contents (opening it puts the cursor at 0). */
  method CheckFile(contents: seq<Byte>) returns (r: Outcome)
    ensures r == Classify(contents)
  {
    var fp := new Reader(contents);
    r := CheckStream(fp);
  }
}
