/** The destination key of the extracted text:
    `processed_text/` + (the source key with a final extension removed) +
    `.txt`, where the extension is whatever the regular expression
    `/\.[^/.]+$/` matches and `String.prototype.replace` removes only the
    first match. */
module OutputKey {
  import opened Wrappers
  import opened Text

  const Prefix := "processed_text/"
  const Suffix := ".txt"

  /** The characters the regex's class `[^/.]` excludes. */
  predicate IsBoundary(c: char) {
    c == '.' || c == '/'
  }

  /** The regex `/\.[^/.]+$/` matches `k` starting at index `i`: a dot, then
      one or more characters up to the very end of `k`, none of them a dot
      or a slash (`$` without the multiline flag anchors at the end only). */
  ghost predicate MatchAt(k: string, i: int) {
    && 0 <= i < |k| - 1
    && k[i] == '.'
    && forall j :: i < j < |k| ==> !IsBoundary(k[j])
  }

  /** The regex matches in at most one place, so "the first match" that
      `replace` removes is the only one. */
  lemma MatchUnique(k: string, i: int, j: int)
    requires MatchAt(k, i) && MatchAt(k, j)
    ensures i == j
  {
    if i < j {
      assert IsBoundary(k[j]);
    } else if j < i {
      assert IsBoundary(k[i]);
    }
  }

  /** The index of the last dot or slash in `k`, if there is one. */
  function LastBoundary(k: string): (r: Option<nat>)
    ensures r.Some? ==> r.value < |k| && IsBoundary(k[r.value])
    ensures r.Some? ==> forall j :: r.value < j < |k| ==> !IsBoundary(k[j])
    ensures r.None? ==> forall j :: 0 <= j < |k| ==> !IsBoundary(k[j])
  {
    if |k| == 0 then None
    else if IsBoundary(k[|k| - 1]) then Some(|k| - 1)
    else LastBoundary(k[..|k| - 1])
  }

  /** Where `replace` cuts: the start of the leftmost match, if any. Only
      the last dot-or-slash can start a match, and only when it is a dot
      with at least one character after it. */
  function MatchStart(k: string): (r: Option<nat>)
    ensures r.Some? ==> MatchAt(k, r.value)
    ensures r.Some? ==> forall j :: 0 <= j < r.value ==> !MatchAt(k, j)
    ensures r.None? ==> forall i :: !MatchAt(k, i)
  {
    match LastBoundary(k)
    case Some(b) => if k[b] == '.' && b < |k| - 1 then Some(b) else None
    case None => None
  }

  /** `sourceKey.replace(/\.[^/.]+$/, '')`: the key without its final
      extension. The result is a prefix of the key, shorter exactly when the
      regex matches, and then it ends where the match starts. */
  function StripExtension(k: string): (stem: string)
    ensures stem <= k
    ensures |stem| < |k| <==> exists i :: MatchAt(k, i)
    ensures |stem| < |k| ==> MatchAt(k, |stem|)
  {
    match MatchStart(k)
    case Some(i) => k[..i]
    case None => k
  }

  /** Where the regex matches at `i`, the stem is everything before `i`. */
  lemma StripAt(k: string, i: int)
    requires MatchAt(k, i)
    ensures StripExtension(k) == k[..i]
  {
    MatchUnique(k, i, |StripExtension(k)|);
  }

  /** A key without a dot keeps its extension-free form unchanged. */
  lemma StripNoDot(k: string)
    requires '.' !in k
    ensures StripExtension(k) == k
  {
  }

  /** At most one extension is removed: the key is the stem followed either
      by nothing or by one dot and a non-empty run without dots or slashes. */
  lemma RemovesOneExtension(k: string)
    ensures var stem := StripExtension(k); var ext := k[|stem|..];
      && k == stem + ext
      && (ext == [] || (|ext| >= 2 && ext[0] == '.' && forall j :: 1 <= j < |ext| ==> !IsBoundary(ext[j])))
  {
    var stem := StripExtension(k);
    var ext := k[|stem|..];
    if ext != [] {
      assert MatchAt(k, |stem|);
      forall j | 1 <= j < |ext| ensures !IsBoundary(ext[j]) {
        assert ext[j] == k[|stem| + j];
      }
    }
  }

  /** The key derivation and the MIME resolver share one notion of "the
      segment after the last dot", but the key derivation only removes it
      when the key has a dot and that segment is non-empty and holds no
      slash; then the key is the stem, a dot, and that segment. */
  lemma StripAgreesWithLastSegment(k: string)
    ensures var seg := LastSegment(k, '.');
      StripExtension(k) != k <==> ('.' in k && seg != [] && '/' !in seg)
    ensures StripExtension(k) != k ==> k == StripExtension(k) + "." + LastSegment(k, '.')
  {
    var seg := LastSegment(k, '.');
    var stem := StripExtension(k);
    if stem != k {
      var i := |stem|;
      assert MatchAt(k, i);
      var tail := k[i + 1..];
      assert IsLastSegment(k, '.', tail) by {
        forall j | 0 <= j < |tail| ensures tail[j] != '.' {
          assert tail[j] == k[i + 1 + j];
        }
      }
      LastSegmentUnique(k, '.', tail, seg);
      assert '/' !in seg by {
        forall j | 0 <= j < |tail| ensures tail[j] != '/' {
          assert tail[j] == k[i + 1 + j];
        }
      }
      assert k == k[..i] + "." + k[i + 1..];
    }
  }

  /** The key the extracted text is written under. It always starts with
      `processed_text/`, always ends with `.txt`, and what lies between is
      the stem of the source key. */
  function DeriveOutputKey(sourceKey: string): (key: string)
    ensures |key| >= |Prefix| + |Suffix|
    ensures key[..|Prefix|] == Prefix
    ensures key[|key| - |Suffix|..] == Suffix
    ensures key[|Prefix|..|key| - |Suffix|] == StripExtension(sourceKey)
  {
    Prefix + StripExtension(sourceKey) + Suffix
  }

  /** Directory segments are kept: `a/b.pdf` becomes `processed_text/a/b.txt`. */
  lemma DirectoryKeptExample()
    ensures DeriveOutputKey("a/b.pdf") == "processed_text/a/b.txt"
  {
    assert MatchAt("a/b.pdf", 3);
    StripAt("a/b.pdf", 3);
    assert "a/b.pdf"[..3] == "a/b";
  }

  /** Only the last of several extensions goes: `a.b.pdf` gives
      `processed_text/a.b.txt`. */
  lemma LastExtensionOnlyExample()
    ensures DeriveOutputKey("a.b.pdf") == "processed_text/a.b.txt"
  {
    assert MatchAt("a.b.pdf", 3);
    StripAt("a.b.pdf", 3);
    assert "a.b.pdf"[..3] == "a.b";
  }

  /** A hidden-file name is all extension: `.hidden` gives
      `processed_text/.txt`. */
  lemma HiddenFileExample()
    ensures DeriveOutputKey(".hidden") == "processed_text/.txt"
  {
    assert MatchAt(".hidden", 0);
    StripAt(".hidden", 0);
  }

  /** A trailing dot is kept, since the regex needs a character after it. */
  lemma TrailingDotExample()
    ensures DeriveOutputKey("file.") == "processed_text/file..txt"
  {
  }

  /** A dot in a directory name is not an extension: `dir.v2/file` is kept
      whole, although its MIME segment is `v2/file`. */
  lemma DottedDirectoryExample()
    ensures DeriveOutputKey("dir.v2/file") == "processed_text/dir.v2/file.txt"
  {
    var k := "dir.v2/file";
    forall i | 0 <= i < |k| && k[i] == '.' ensures !MatchAt(k, i) {
      assert i == 3;
      assert IsBoundary(k[6]);
    }
    assert forall i :: !MatchAt(k, i);
  }

  /** A key without a dot is kept whole. */
  lemma NoExtensionExample()
    ensures DeriveOutputKey("noext") == "processed_text/noext.txt"
  {
    StripNoDot("noext");
  }

  /** Distinct source keys can share an output key, so one object's text
      can overwrite another's: `report`, `report.pdf` and `report.png` all
      go to `processed_text/report.txt`. */
  lemma OutputKeysCollide()
    ensures DeriveOutputKey("report") == DeriveOutputKey("report.pdf")
    ensures DeriveOutputKey("report.pdf") == DeriveOutputKey("report.png")
  {
    StripNoDot("report");
    assert MatchAt("report.pdf", 6);
    StripAt("report.pdf", 6);
    assert "report.pdf"[..6] == "report";
    assert MatchAt("report.png", 6);
    StripAt("report.png", 6);
    assert "report.png"[..6] == "report";
  }

  /** The text is never written over the document it came from: no source
      key is its own output key. Were it so, the key would end in `.txt`,
      the regex would match at that last dot, and the stem would be four
      characters shorter than the key rather than nineteen. */
  lemma OutputKeyDiffers(k: string)
    ensures DeriveOutputKey(k) != k
  {
    var out := DeriveOutputKey(k);
    var stem := StripExtension(k);
    if |out| == |k| {
      assert |stem| < |k|;
      assert MatchAt(k, |stem|);
      var j := |k| - |Suffix|;
      assert |stem| < j;
      assert !IsBoundary(k[j]);
      assert out[j..] == Suffix;
      assert out[j] == '.';
    }
  }

  /** `invoice.pdf` gives `processed_text/invoice.txt`. */
  lemma InvoiceExample()
    ensures DeriveOutputKey("invoice.pdf") == "processed_text/invoice.txt"
  {
    assert MatchAt("invoice.pdf", 7);
    StripAt("invoice.pdf", 7);
    assert "invoice.pdf"[..7] == "invoice";
  }
}
