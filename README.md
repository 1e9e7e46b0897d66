# wav-mp4 conversion handler, modelled in Dafny

The repository is a small Flask service: `POST /convert` takes an uploaded audio file and
a short display text, fetches a placeholder image showing the text, has ffmpeg mux the
still image with the audio into an MP4, and reports the name of the produced video;
`GET /download/<name>` serves it. This project models the logic of `app.py` that does not
belong to the framework or to an external program:

- `allowed_file`, the extension filter for uploads (module `Upload`, with the ASCII
  lowering it relies on in module `Ascii`);
- the derivation of the output name from `image_text` (module `OutputName`);
- the decision flow of `convert_audio_to_video` as a pure function from the request and
  the answers of the outside world to the HTTP response and the side-effecting steps
  carried out (module `Convert`).

The network request for the image and the ffmpeg run are parameters: only the image's
HTTP status, the encoder's exit code and its standard-error text enter the model.
Exceptions are an input too: `Environment.raised` names the step that raises and the
text `str(e)` yields; it takes effect only if the handler reaches that step.
`str.lower()` is modelled as ASCII lowercasing: Python lowers by Unicode rules, but no
character outside ASCII lowers to one of the letters or digits of the six allowed
extensions, so the verdict of the filter is the same.

## Model

| member | source | states |
|---|---|---|
| Upload.AllowedAudioExtensions | app.py:18 | the six extensions; a constant with no contract of its own, specified by `AllowedExtensionsHaveNoDot` and the `AllowedFile` lemmas below |
| Upload.AllowedFile | app.py:20-21 | `allowed_file`; no contract of its own, specified by `AllowedFileIffAudioExtension`, `AllowedFileByLastExtension`, `AllowedFileIgnoresCase`, `NoDotRejected` and `TrailingDotRejected` |
| Ascii.Lower | app.py:21 | the lowered text has the same length, is lowered character by character and holds no upper-case letter |
| Upload.LastIndexOf | app.py:21 | None exactly when the character does not occur; otherwise an index holding it with no occurrence after it |
| Upload.LastIndexOfUnique | app.py:21 | an occurrence with none after it is the one found, so the last occurrence is unique |
| Upload.RSplitOnce | app.py:21 | `rsplit(sep, 1)`: one part (the whole text) when sep is absent; otherwise two parts that rebuild the text around sep, the second free of sep |
| Upload.RSplitOnceAt | app.py:21 | splitting `p + sep + e` with sep not in e gives exactly `[p, e]`, whatever p contains |
| Upload.AllowedExtensionsHaveNoDot | app.py:18 | none of the six allowed extensions contains a dot |
| Upload.AllowedFileByLastExtension | app.py:18-21 | for `stem + "." + ext` with no dot in ext, the verdict is exactly whether lowered ext is in the allow-set; the stem is irrelevant |
| Upload.NoDotRejected | app.py:21 | a filename without a dot, the empty one included, is rejected |
| Upload.TrailingDotRejected | app.py:18-21 | a filename ending in '.' (empty extension) is rejected |
| Upload.AllowedFileHasAudioExtension | app.py:18-21 | an accepted filename ends with '.' and one of mp3, wav, ogg, m4a, flac, aac in some letter case |
| Upload.AudioExtensionAllowed | app.py:18-21 | a filename ending with '.' and an allowed extension in any letter case is accepted |
| Upload.AllowedFileIffAudioExtension | app.py:18-21 | accepted if and only if the filename ends with '.' and an allowed extension, case-insensitively |
| Upload.AllowedFileIgnoresCase | app.py:21 | two filenames differing only in letter case get the same verdict |
| Upload.AllowedFileOfLowered | app.py:21 | lowering the whole filename first does not change the verdict |
| Upload.LastExtensionExamples | app.py:18-21 | "a.txt.wav" is accepted and "a.wav.txt" rejected |
| Upload.UpperCaseExample | app.py:21 | "CLIP.MP3" and "clip.mp3" are both accepted |
| Upload.RejectedExamples | app.py:18-21 | "", "mp3" and "song." are rejected |
| OutputName.ImageText | app.py:35 | `request.form.get('image_text', 'Video')`; no contract of its own, specified by `PresentImageTextUsed` (a present field, the empty one included, is used as given) and by `DefaultOutputFilename` and `SuccessWithoutText` (an absent field gives "Video") |
| OutputName.ReplaceSpaces | app.py:49 | same length, no space left, each space becomes '_' and every other character is kept in place |
| OutputName.OutputFilename | app.py:49 | the name has length `len(text) + 4`, ends in ".mp4", holds no space, and starts with the text's spaces replaced |
| OutputName.SpaceFreeTextKept | app.py:49 | a text without spaces is kept verbatim: its name is the text followed by ".mp4" |
| OutputName.ReplaceSpacesIdempotent | app.py:49 | replacing spaces twice is replacing once |
| OutputName.SameOutputFilename | app.py:49 | two texts give the same name if and only if they have equal length and agree position by position up to ' ' against '_' |
| OutputName.OutputFilenameCollision | app.py:49 | "Hello World" and "Hello_World" both give "Hello_World.mp4", so the name is not injective |
| OutputName.PathSeparatorKept | app.py:49-50 | a '/' in the text is kept at the same position of the name |
| OutputName.PresentImageTextUsed | app.py:35-49 | a present `image_text` is used as given, so an empty one gives the name ".mp4" rather than "Video.mp4" |
| OutputName.DefaultOutputFilename | app.py:35-49 | without an `image_text` field the name is "Video.mp4" |
| Convert.Convert | app.py:29-95 | every response has status 200, 400 or 500; a success payload exactly when the status is 200; the steps performed are a prefix of save, fetch, write image, encode, remove |
| Convert.Process | app.py:43-92 | after validation: status 200 or 500, a success payload exactly when 200, and at least the save step performed, as a prefix of the five steps |
| Convert.Validate | app.py:31-41 | the chain of three checks; no contract of its own, specified by `ValidateIffValidUpload` and `ValidationOrder` |
| Convert.ValidateIffValidUpload | app.py:31-41 | the three checks find nothing exactly when the field is present, the filename non-empty and accepted by the filter |
| Convert.ProcessSucceeds | app.py:56-92 | after validation, success exactly when the image status is 200, the exit code 0 and no later step raises; success performs all five steps and reports the given name |
| Convert.ProcessEncodesOnlyAfterImage | app.py:56-79 | after validation, the encoder runs only when the image status was 200 |
| Convert.ProcessCatches | app.py:43-95 | after validation, an exception raised by step k, where k is reached by the inputs (image status 200 from writing the image on, exit code 0 for the removal), gives exactly 500 with its text after the first k + 1 steps |
| Convert.ValidationOrder | app.py:31-41 | missing field, then empty filename, then disallowed extension, each a 400 with its own message and with nothing performed |
| Convert.BadRequestIffInvalid | app.py:29-46 | a 400 exactly when reading the form succeeds and the upload fails a check; a 400 performs no step |
| Convert.SavesOnlyValidUploads | app.py:37-46 | the audio is saved only for an upload that passed all three checks |
| Convert.EncoderRunsOnlyAfterImage | app.py:56-79 | the encoder runs only for a valid upload whose image came back with status 200 |
| Convert.SuccessIff | app.py:29-92 | a success payload if and only if the upload is valid, the image status is 200, the exit code is 0 and nothing raised |
| Convert.SuccessPayload | app.py:49-92 | on success all five steps were performed and the payload names the derived output file with the fixed message |
| Convert.SuccessWithoutText | app.py:35-92 | a successful conversion without `image_text` answers 200 with filename "Video.mp4" |
| Convert.ImageFailure | app.py:56-61 | an image status other than 200 gives 500 "Failed to download placeholder image" after save and fetch, before the encoder |
| Convert.EncoderFailure | app.py:79-86 | a non-zero exit code gives 500 "FFmpeg error: " followed by stderr; the encoder ran and the staged files were not removed |
| Convert.FormExceptionCaught | app.py:29-35 | an exception while reading the form gives 500 with its text, with no check run and nothing performed |
| Convert.ExceptionCaught | app.py:43-95 | for a valid upload, an exception raised by a step the inputs reach gives exactly 500 with its text, and that step is the last of the steps performed |

## Left out

- The `/download` route (app.py:97-106): it is `secure_filename` plus a filesystem existence check and `send_file`.
- `werkzeug.utils.secure_filename` (app.py:44): a library function that is not part of this model; its effect on the saved name does not influence any response.
- Flask routing, `render_template`, `jsonify` serialisation and the 350 MB `MAX_CONTENT_LENGTH` limit (app.py:10): framework behaviour. An exception from the framework while reading the form is the `ReadForm` step.
- Building the image URL and the HTTP request (app.py:53-56): network I/O; only the returned status code enters the model.
- The ffmpeg command line and process (app.py:64-79): an external program; only its exit code and standard error enter the model.
- Filesystem effects (app.py:15-16, 46, 58-59, 85-86): directory creation, saving, writing and removing files are recorded only as the steps performed, not as a filesystem state.
- The shared `temp_image.png` path and overwriting outputs of the same name between concurrent requests (app.py:54, 49): concurrency hazards outside a sequential model; the collision of names itself is stated by `OutputName.SameOutputFilename`.
- Exceptions that derive only from Python's `BaseException` (such as `KeyboardInterrupt` or `SystemExit`) escape the handler's `except Exception` (app.py:94); the model's `raised` input stands for an `Exception` only.
- Ascii.Lower: lowers ASCII letters only, where Python's `str.lower()` follows Unicode; this never changes `allowed_file`'s verdict, but `Lower` is not Python's lowering on non-ASCII text.
