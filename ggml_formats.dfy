/**
 * The table of GGML container magics. A magic is the first four bytes of a
 * model file, compared verbatim; on disk each is its format's name with the
 * bytes in reverse order ("lmgg" for ggml).
 */
module GgmlFormats {
  import opened Bytes

  /** The values of the table, plus the default of the lookup. */
  datatype Format = Ggml | Ggjt | Ggmf | UnknownFormat

  /**
   * The name each format has in the table and in the printed report, with
   * "unknown" for the default of the lookup. The magic of a known format is
   * its name's characters in reverse order.
   */
  function Name(f: Format): (s: string)
    ensures f != UnknownFormat ==>
      |s| == 4 && forall i :: 0 <= i < 4 ==> s[i] as int == MagicOf(f)[3 - i]
    ensures f == UnknownFormat <==> s == "unknown"
  {
    match f
    case Ggml => "ggml"
    case Ggjt => "ggjt"
    case Ggmf => "ggmf"
    case UnknownFormat => "unknown"
  }

  /** Comparing names, as the report code does, is comparing formats. */
  lemma NameInjective(f: Format, g: Format)
    requires Name(f) == Name(g)
    ensures f == g
  {
  }

  const LMGG: seq<Byte> := [0x6C, 0x6D, 0x67, 0x67]   // b"lmgg"
  const TJGG: seq<Byte> := [0x74, 0x6A, 0x67, 0x67]   // b"tjgg"
  const FMGG: seq<Byte> := [0x66, 0x6D, 0x67, 0x67]   // b"fmgg"

  /** The magic table: exactly three entries. */
  const GGML_FORMATS: map<seq<Byte>, Format> := map[LMGG := Ggml, TJGG := Ggjt, FMGG := Ggmf]

  /** `GGML_FORMATS.get(magic, "unknown")`. */
  function FormatOf(magic: seq<Byte>): (f: Format)
    ensures f == Ggml <==> magic == LMGG
    ensures f == Ggjt <==> magic == TJGG
    ensures f == Ggmf <==> magic == FMGG
    ensures f == UnknownFormat <==> magic != LMGG && magic != TJGG && magic != FMGG
  {
    if magic in GGML_FORMATS then GGML_FORMATS[magic] else UnknownFormat
  }

  /** The test `format == "ggml"` holds exactly for the magic "lmgg". */
  lemma GgmlNameIffLmgg(magic: seq<Byte>)
    ensures Name(FormatOf(magic)) == "ggml" <==> magic == LMGG
  {
    if Name(FormatOf(magic)) == "ggml" {
      NameInjective(FormatOf(magic), Ggml);
    }
  }

  /** The magic a known format is stored under: the inverse of FormatOf. */
  function MagicOf(f: Format): (magic: seq<Byte>)
    requires f != UnknownFormat
    ensures |magic| == 4 && FormatOf(magic) == f
  {
    match f
    case Ggml => LMGG
    case Ggjt => TJGG
    case Ggmf => FMGG
  }

  /** Every recognised magic is the one its format is stored under. */
  lemma MagicOfFormatOf(magic: seq<Byte>)
    requires FormatOf(magic) != UnknownFormat
    ensures MagicOf(FormatOf(magic)) == magic
  {
  }

  /** No byte-swapping: a table magic read in the opposite byte order is not recognised. */
  lemma ByteSwappedMagicIsUnknown(magic: seq<Byte>)
    requires magic in GGML_FORMATS
    ensures FormatOf([magic[3], magic[2], magic[1], magic[0]]) == UnknownFormat
  {
  }
}
