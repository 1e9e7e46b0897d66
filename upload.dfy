/**
 * The upload filter of the `/convert` handler: an audio upload is accepted by
 * the text after the last '.' of its filename, without regard to letter case.
 * There is no look at the content of the file.
 */
module Upload {
  import opened Optional
  import opened Ascii

  /** The extensions of the audio formats the converter accepts. */
  const AllowedAudioExtensions: set<string> := {"mp3", "wav", "ogg", "m4a", "flac", "aac"}

  /** Position of the last occurrence of `c` in `s` (Python's `s.rfind(c)`, with None for -1). */
  function LastIndexOf(s: string, c: char): (r: Option<nat>)
    ensures r.None? <==> c !in s
    ensures r.Some? ==> r.value < |s| && s[r.value] == c && c !in s[r.value + 1..]
  {
    if s == [] then None
    else if s[|s| - 1] == c then Some(|s| - 1)
    else LastIndexOf(s[..|s| - 1], c)
  }

  /** Python's `s.rsplit(sep, 1)`: the whole text when `sep` does not occur, otherwise the
      text before and the text after the last `sep`. */
  function RSplitOnce(s: string, sep: char): (parts: seq<string>)
    ensures sep !in s ==> parts == [s]
    ensures sep in s ==> |parts| == 2 && s == parts[0] + [sep] + parts[1] && sep !in parts[1]
  {
    match LastIndexOf(s, sep)
    case None => [s]
    case Some(i) => [s[..i], s[i + 1..]]
  }

  /** `allowed_file(filename)`. The dot test comes first, so the second part of the split
      is only taken when it exists. */
  predicate AllowedFile(filename: string) {
    '.' in filename && Lower(RSplitOnce(filename, '.')[1]) in AllowedAudioExtensions
  }

  /** `filename` ends with a '.' followed by a text whose lower-case form is `ext`. */
  predicate EndsWithExtension(filename: string, ext: string) {
    |ext| < |filename|
    && filename[|filename| - |ext| - 1] == '.'
    && Lower(filename[|filename| - |ext|..]) == ext
  }

  /** Any occurrence of `c` that has no other `c` after it is the last one. */
  lemma LastIndexOfUnique(s: string, c: char, i: nat)
    requires i < |s| && s[i] == c && c !in s[i + 1..]
    ensures LastIndexOf(s, c) == Some(i)
  {
    assert s[i] in s;
  }

  /** Splitting at the last `sep`: whatever precedes it is the first part, no matter how
      many `sep` it holds. */
  lemma RSplitOnceAt(p: string, sep: char, e: string)
    requires sep !in e
    ensures RSplitOnce(p + [sep] + e, sep) == [p, e]
  {
    var s := p + [sep] + e;
    assert s[|p| + 1..] == e;
    LastIndexOfUnique(s, sep, |p|);
    assert s[..|p|] == p;
  }

  /** No allowed extension contains a dot. */
  lemma AllowedExtensionsHaveNoDot(ext: string)
    requires ext in AllowedAudioExtensions
    ensures '.' !in ext
  {
  }

  /** Only the text after the last dot decides: `"a.txt.wav"` is accepted and
      `"a.wav.txt"` is not. */
  lemma AllowedFileByLastExtension(stem: string, ext: string)
    requires '.' !in ext
    ensures AllowedFile(stem + "." + ext) <==> Lower(ext) in AllowedAudioExtensions
  {
    RSplitOnceAt(stem, '.', ext);
    assert '.' in stem + "." + ext by { assert (stem + "." + ext)[|stem|] == '.'; }
  }

  /** A filename without a dot, the empty one included, is rejected. */
  lemma NoDotRejected(filename: string)
    requires '.' !in filename
    ensures !AllowedFile(filename)
  {
  }

  /** A filename ending in '.' has an empty extension and is rejected. */
  lemma TrailingDotRejected(filename: string)
    requires |filename| > 0 && filename[|filename| - 1] == '.'
    ensures !AllowedFile(filename)
  {
    var stem := filename[..|filename| - 1];
    assert filename == stem + "." + "";
    AllowedFileByLastExtension(stem, "");
  }

  /** An accepted filename ends with '.' and one of the six extensions, in some letter case. */
  lemma AllowedFileHasAudioExtension(filename: string)
    requires AllowedFile(filename)
    ensures exists ext :: ext in AllowedAudioExtensions && EndsWithExtension(filename, ext)
  {
    var parts := RSplitOnce(filename, '.');
    var ext := Lower(parts[1]);
    assert filename[|filename| - |ext|..] == parts[1];
    assert filename[|filename| - |ext| - 1] == '.';
    assert EndsWithExtension(filename, ext);
  }

  /** Conversely, a filename that ends with '.' and one of the six extensions, in any letter
      case, is accepted, whatever comes before. */
  lemma AudioExtensionAllowed(filename: string, ext: string)
    requires ext in AllowedAudioExtensions && EndsWithExtension(filename, ext)
    ensures AllowedFile(filename)
  {
    var n := |filename| - |ext| - 1;
    var stem, tail := filename[..n], filename[n + 1..];
    assert filename == stem + "." + tail;
    AllowedExtensionsHaveNoDot(ext);
    LowerKeepsPunctuation(tail, '.');
    AllowedFileByLastExtension(stem, tail);
  }

  /** The filter is exactly "ends with '.' and one of the six extensions, in any letter case". */
  lemma AllowedFileIffAudioExtension(filename: string)
    ensures AllowedFile(filename) <==>
      exists ext :: ext in AllowedAudioExtensions && EndsWithExtension(filename, ext)
  {
    if AllowedFile(filename) {
      AllowedFileHasAudioExtension(filename);
    }
    if exists ext :: ext in AllowedAudioExtensions && EndsWithExtension(filename, ext) {
      var ext :| ext in AllowedAudioExtensions && EndsWithExtension(filename, ext);
      AudioExtensionAllowed(filename, ext);
    }
  }

  /** The filter ignores letter case: two filenames that differ only in the case of their
      letters (`"CLIP.MP3"` and `"clip.mp3"`) get the same verdict. */
  lemma AllowedFileIgnoresCase(f: string, g: string)
    requires Lower(f) == Lower(g)
    ensures AllowedFile(f) <==> AllowedFile(g)
  {
    forall k | 0 <= k < |f|
      ensures f[k] == '.' <==> g[k] == '.'
    {
      assert LowerChar(f[k]) == LowerChar(g[k]);
      LowerCharKeeps(f[k], '.');
      LowerCharKeeps(g[k], '.');
    }
    if '.' in f {
      var i := LastIndexOf(f, '.').value;
      assert f == f[..i] + "." + f[i + 1..];
      assert g == g[..i] + "." + g[i + 1..];
      AllowedFileByLastExtension(f[..i], f[i + 1..]);
      AllowedFileByLastExtension(g[..i], g[i + 1..]);
      LowerSlice(f, i + 1);
      LowerSlice(g, i + 1);
    }
  }

  /** Lowering the whole filename first would not change the verdict. */
  lemma AllowedFileOfLowered(filename: string)
    ensures AllowedFile(Lower(filename)) <==> AllowedFile(filename)
  {
    LowerIdempotent(filename);
    AllowedFileIgnoresCase(Lower(filename), filename);
  }

  /** Only the last extension counts: `"a.txt.wav"` is accepted, `"a.wav.txt"` is not. */
  lemma LastExtensionExamples()
    ensures AllowedFile("a.txt.wav") && !AllowedFile("a.wav.txt")
  {
    assert "a.txt.wav" == "a.txt" + "." + "wav" && Lower("wav") == "wav";
    AllowedFileByLastExtension("a.txt", "wav");
    assert "a.wav.txt" == "a.wav" + "." + "txt";
    AllowedFileByLastExtension("a.wav", "txt");
  }

  /** `"CLIP.MP3"` is accepted like `"clip.mp3"`. */
  lemma UpperCaseExample()
    ensures AllowedFile("CLIP.MP3") && AllowedFile("clip.mp3")
  {
    assert "clip.mp3" == "clip" + "." + "mp3" && Lower("mp3") == "mp3";
    AllowedFileByLastExtension("clip", "mp3");
    assert "CLIP.MP3" == "CLIP" + "." + "MP3" && Lower("MP3") == "mp3";
    AllowedFileByLastExtension("CLIP", "MP3");
  }

  /** The empty name, a bare extension and a name ending in '.' are rejected. */
  lemma RejectedExamples()
    ensures !AllowedFile("") && !AllowedFile("mp3") && !AllowedFile("song.")
  {
    TrailingDotRejected("song.");
  }
}
