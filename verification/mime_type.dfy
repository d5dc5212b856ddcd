/** The MIME-type resolver of the handler: the text after the last `.` of
    the object key, lower-cased, looked up in a fixed table of document and
    image formats, with `application/octet-stream` for everything else. */
module MimeType {
  import opened Text

  const Pdf := "application/pdf"
  const Tiff := "image/tiff"
  const Jpeg := "image/jpeg"
  const Png := "image/png"
  const Bmp := "image/bmp"
  const Gif := "image/gif"
  const OctetStream := "application/octet-stream"

  /** The recognised extensions and their types, as one table. */
  const Table: map<string, string> := map[
    "pdf" := Pdf,
    "tiff" := Tiff, "tif" := Tiff,
    "jpg" := Jpeg, "jpeg" := Jpeg,
    "png" := Png,
    "bmp" := Bmp,
    "gif" := Gif
  ]

  /** The extension as the resolver sees it: `filename.split('.').pop()`
      lower-cased. */
  function Extension(filename: string): (ext: string)
    ensures '.' !in ext
    ensures forall i :: 0 <= i < |ext| ==> !('A' <= ext[i] <= 'Z')
    ensures forall seg :: IsLastSegment(filename, '.', seg) ==> ext == ToLowerAscii(seg)
  {
    var seg := LastSegment(filename, '.');
    var ext := ToLowerAscii(seg);
    assert forall other :: IsLastSegment(filename, '.', other) ==> ext == ToLowerAscii(other) by {
      forall other | IsLastSegment(filename, '.', other) ensures ext == ToLowerAscii(other) {
        LastSegmentUnique(filename, '.', seg, other);
      }
    }
    assert forall i :: 0 <= i < |ext| ==> ext[i] != '.' by {
      forall i | 0 <= i < |ext| ensures ext[i] != '.' {
        LowerCharFixesNonLetters(seg[i], '.');
      }
    }
    ext
  }

  /** Every type the resolver can answer. */
  const Types: set<string> := {Pdf, Tiff, Jpeg, Png, Bmp, Gif, OctetStream}

  /** The `switch` over the lower-cased extension: the table's entry, or
      the default, which no table entry maps to. */
  function TypeOfExtension(ext: string): (mime: string)
    ensures mime in Types
    ensures ext in Table ==> mime == Table[ext] && mime != OctetStream
    ensures ext !in Table ==> mime == OctetStream
  {
    if ext == "pdf" then Pdf
    else if ext == "tiff" || ext == "tif" then Tiff
    else if ext == "jpg" || ext == "jpeg" then Jpeg
    else if ext == "png" then Png
    else if ext == "bmp" then Bmp
    else if ext == "gif" then Gif
    else OctetStream
  }

  /** `determineMimeType`: total, and always one of the seven types. */
  function DetermineMimeType(filename: string): (mime: string)
    ensures mime in Types
    ensures mime == OctetStream <==> Extension(filename) !in Table
  {
    TypeOfExtension(Extension(filename))
  }

  /** The resolver depends on the key only through the last dot-separated
      segment: any key whose last segment lower-cases to a table entry gets
      that entry's type, and every other key gets the default. */
  lemma MimeOfLastSegment(filename: string, seg: string)
    requires IsLastSegment(filename, '.', seg)
    ensures ToLowerAscii(seg) in Table ==> DetermineMimeType(filename) == Table[ToLowerAscii(seg)]
    ensures ToLowerAscii(seg) !in Table ==> DetermineMimeType(filename) == OctetStream
  {
    LastSegmentUnique(filename, '.', seg, LastSegment(filename, '.'));
  }

  /** Only the final segment matters: whatever precedes the last dot,
      including further dots and slashes, is ignored. */
  lemma MimeIgnoresPrefix(p: string, e: string)
    requires '.' !in e
    ensures DetermineMimeType(p + "." + e) == DetermineMimeType(e)
  {
    LastSegmentAfterSep(p, '.', e);
    LastSegmentOfFree(e, '.');
  }

  /** The match is case-insensitive: keys that agree up to ASCII case get the
      same type. */
  lemma MimeCaseInsensitive(a: string, b: string)
    requires ToLowerAscii(a) == ToLowerAscii(b)
    ensures DetermineMimeType(a) == DetermineMimeType(b)
  {
    LastSegmentToLower(a, '.');
    LastSegmentToLower(b, '.');
    ToLowerIdempotent(LastSegment(a, '.'));
    ToLowerIdempotent(LastSegment(b, '.'));
  }

  /** A key ending in a dot has an empty final segment, which is not in the
      table. */
  lemma TrailingDotIsOctetStream(p: string)
    ensures DetermineMimeType(p + ".") == OctetStream
  {
    LastSegmentAfterSep(p, '.', "");
    assert p + "." == p + ['.'] + "";
  }

  /** A bare `pdf`, with no dot, is its own segment. */
  lemma BarePdfExample()
    ensures DetermineMimeType("pdf") == Pdf
  {
    LastSegmentOfFree("pdf", '.');
    assert ToLowerAscii("pdf") == "pdf";
  }

  /** Upper case resolves like lower case. */
  lemma UpperCaseExample()
    ensures DetermineMimeType("X.PDF") == Pdf
  {
    assert IsLastSegment("X.PDF", '.', "PDF");
    assert ToLowerAscii("PDF") == "pdf";
    MimeOfLastSegment("X.PDF", "PDF");
  }

  /** In `dir.v2/file` the segment after the last dot is `v2/file`, which is
      not in the table. */
  lemma DottedDirectoryExample()
    ensures DetermineMimeType("dir.v2/file") == OctetStream
  {
    assert IsLastSegment("dir.v2/file", '.', "v2/file");
    assert ToLowerAscii("v2/file")[1] == '2';
    MimeOfLastSegment("dir.v2/file", "v2/file");
  }

  /** `invoice.pdf` is a PDF document. */
  lemma InvoiceExample()
    ensures DetermineMimeType("invoice.pdf") == Pdf
  {
    assert IsLastSegment("invoice.pdf", '.', "pdf");
    assert ToLowerAscii("pdf") == "pdf";
    MimeOfLastSegment("invoice.pdf", "pdf");
  }
}
