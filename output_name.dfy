/**
 * The name of the produced video: the display text of the request (the form field
 * `image_text`, "Video" when the field is absent) with every space turned into '_',
 * followed by ".mp4". The name is not unique per request: two texts that differ only
 * by ' ' against '_' give the same name, and the later video overwrites the earlier.
 */
module OutputName {
  import opened Optional

  const DefaultImageText: string := "Video"
  const VideoExtension: string := ".mp4"

  /** `request.form.get('image_text', 'Video')`: a field that is present is used as it is,
      even when empty. */
  function ImageText(field: Option<string>): string {
    field.GetOr(DefaultImageText)
  }

  /** The character `text.replace(' ', '_')` puts in place of `c`. */
  function Underscored(c: char): char {
    if c == ' ' then '_' else c
  }

  /** `text.replace(' ', '_')`. */
  function ReplaceSpaces(text: string): (r: string)
    ensures |r| == |text|
    ensures ' ' !in r
    ensures forall i :: 0 <= i < |text| && text[i] != ' ' ==> r[i] == text[i]
    ensures forall i :: 0 <= i < |text| && text[i] == ' ' ==> r[i] == '_'
  {
    seq(|text|, i requires 0 <= i < |text| => Underscored(text[i]))
  }

  /** `image_text.replace(' ', '_') + '.mp4'`. */
  function OutputFilename(text: string): (name: string)
    ensures |name| == |text| + |VideoExtension|
    ensures name[|text|..] == VideoExtension
    ensures ' ' !in name
    ensures name[..|text|] == ReplaceSpaces(text)
  {
    ReplaceSpaces(text) + VideoExtension
  }

  /** A text without spaces is kept as it is, so it can be read back from the name. */
  lemma SpaceFreeTextKept(text: string)
    requires ' ' !in text
    ensures ReplaceSpaces(text) == text
    ensures OutputFilename(text) == text + VideoExtension
  {
    assert forall i :: 0 <= i < |text| ==> ReplaceSpaces(text)[i] == text[i];
  }

  /** Replacing twice is replacing once: a name's stem is its own replacement. */
  lemma ReplaceSpacesIdempotent(text: string)
    ensures ReplaceSpaces(ReplaceSpaces(text)) == ReplaceSpaces(text)
  {
    SpaceFreeTextKept(ReplaceSpaces(text));
  }

  /** Two texts give the same output name exactly when they have the same length and agree
      at every position up to exchanging ' ' and '_'. */
  lemma SameOutputFilename(s: string, t: string)
    ensures OutputFilename(s) == OutputFilename(t) <==>
      |s| == |t| && forall i :: 0 <= i < |s| ==> Underscored(s[i]) == Underscored(t[i])
  {
    if OutputFilename(s) == OutputFilename(t) {
      assert |s| == |t|;
      forall i | 0 <= i < |s|
        ensures Underscored(s[i]) == Underscored(t[i])
      {
        assert OutputFilename(s)[i] == OutputFilename(t)[i];
      }
    }
    if |s| == |t| && forall i :: 0 <= i < |s| ==> Underscored(s[i]) == Underscored(t[i]) {
      assert ReplaceSpaces(s) == ReplaceSpaces(t);
    }
  }

  /** The name is not injective: "Hello World" and "Hello_World" both become "Hello_World.mp4". */
  lemma OutputFilenameCollision()
    ensures OutputFilename("Hello World") == OutputFilename("Hello_World") == "Hello_World.mp4"
  {
    SameOutputFilename("Hello World", "Hello_World");
    SpaceFreeTextKept("Hello_World");
  }

  /** Only spaces are rewritten: a '/' in the text stays in the name, so the name is not
      confined to a single path component. */
  lemma PathSeparatorKept(text: string, i: nat)
    requires i < |text| && text[i] == '/'
    ensures OutputFilename(text)[i] == '/'
  {
  }

  /** A field that is present is used as given, even when empty: an empty `image_text`
      gives the name ".mp4", not "Video.mp4". */
  lemma PresentImageTextUsed(text: string)
    ensures ImageText(Some(text)) == text
    ensures OutputFilename(ImageText(Some(""))) == VideoExtension
  {
  }

  /** Without an `image_text` field the video is called "Video.mp4". */
  lemma DefaultOutputFilename()
    ensures OutputFilename(ImageText(None)) == "Video.mp4"
  {
    SpaceFreeTextKept(DefaultImageText);
  }
}
