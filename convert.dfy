/**
 * The decision flow of the `/convert` handler: a chain of checks, each of which may end
 * the request early. The web framework, the placeholder-image service, the encoder
 * process and the filesystem are not modelled; what the handler learns from them is
 * given as an `Environment`: the status of the image download, the encoder's exit code
 * and diagnostic text, and the one exception (if any) some step raises.
 */
module Convert {
  import opened Optional
  import opened Upload
  import opened OutputName

  /** The steps of the handler that touch the outside world, in program order. */
  datatype Step =
    | ReadForm      // reading the multipart fields `audio` and `image_text`
    | SaveAudio     // sanitising the upload's name and saving it under the uploads directory
    | FetchImage    // the HTTP request for the placeholder image
    | WriteImage    // writing the image bytes to the shared image path
    | RunEncoder    // running the encoder on image and audio
    | RemoveStaged  // deleting the saved audio and the image

  /** The steps after validation; the handler performs a prefix of them. */
  const SideEffects: seq<Step> := [SaveAudio, FetchImage, WriteImage, RunEncoder, RemoveStaged]

  /** An exception raised by a step, with the text `str(e)` gives for it. */
  datatype Exception = Exception(at: Step, message: string)

  /** The request: the filename of the `audio` upload (None when the field is absent) and
      the `image_text` field (None when absent). */
  datatype Request = Request(audio: Option<string>, imageText: Option<string>)

  /** What the outside world answers. `raised` only matters if the handler reaches its step. */
  datatype Environment = Environment(
    raised: Option<Exception>,
    imageStatus: int,
    encoderExit: int,
    encoderStderr: string)

  /** The JSON body: `{error}` or `{success: true, filename, message}`. */
  datatype Body = Error(error: string) | Created(filename: string, message: string)

  datatype Response = Response(status: int, body: Body)

  /** The response together with the side-effecting steps that were carried out. */
  datatype Outcome = Outcome(response: Response, performed: seq<Step>)

  const NoAudioProvided: string := "No audio file provided"
  const NoAudioSelected: string := "No audio file selected"
  const InvalidAudioFormat: string := "Invalid audio file format"
  const ImageDownloadFailed: string := "Failed to download placeholder image"
  const EncoderErrorPrefix: string := "FFmpeg error: "
  const VideoCreated: string := "Video created successfully"

  predicate Raises(env: Environment, step: Step) {
    env.raised.Some? && env.raised.value.at == step
  }

  /** Judged from the inputs alone, the handler gets to side-effecting step `k` once the
      upload is valid: writing the image and running the encoder need an image status of
      200, removing the staged files also needs exit code 0. Exceptions of earlier steps
      are excluded by `raised` holding a single exception. */
  predicate StepReached(env: Environment, k: nat) {
    k < |SideEffects|
    && (k >= 2 ==> env.imageStatus == 200)
    && (k == 4 ==> env.encoderExit == 0)
  }

  /** The upload passes the three checks of the handler, stated as one conjunction: the
      specification that `ValidateIffValidUpload` connects to the chain of checks in `Validate`. */
  predicate ValidUpload(req: Request) {
    req.audio.Some? && req.audio.value != "" && AllowedFile(req.audio.value)
  }

  /** A 400 response with the given message; nothing has been done yet. */
  function Rejected(message: string): Outcome {
    Outcome(Response(400, Error(message)), [])
  }

  /** A 500 response after the first `steps` side-effecting steps. */
  function Failed(message: string, steps: nat): Outcome
    requires steps <= |SideEffects|
  {
    Outcome(Response(500, Error(message)), SideEffects[..steps])
  }

  /** The three checks on the upload, in the handler's order: the message of the first that
      fails, or None when the upload passes. */
  function Validate(req: Request): Option<string> {
    if req.audio.None? then Some(NoAudioProvided)
    else if req.audio.value == "" then Some(NoAudioSelected)
    else if !AllowedFile(req.audio.value) then Some(InvalidAudioFormat)
    else None
  }

  /** The part of the handler after validation: save, fetch the image, write it, encode,
      clean up and report `name`. */
  function Process(name: string, env: Environment): (out: Outcome)
    ensures out.response.status == 200 || out.response.status == 500
    ensures out.response.body.Created? <==> out.response.status == 200
    ensures 1 <= |out.performed| && out.performed <= SideEffects
  {
    if Raises(env, SaveAudio) then Failed(env.raised.value.message, 1)
    else if Raises(env, FetchImage) then Failed(env.raised.value.message, 2)
    else if env.imageStatus != 200 then Failed(ImageDownloadFailed, 2)
    else if Raises(env, WriteImage) then Failed(env.raised.value.message, 3)
    else if Raises(env, RunEncoder) then Failed(env.raised.value.message, 4)
    else if env.encoderExit != 0 then Failed(EncoderErrorPrefix + env.encoderStderr, 4)
    else if Raises(env, RemoveStaged) then Failed(env.raised.value.message, 5)
    else Outcome(Response(200, Created(name, VideoCreated)), SideEffects)
  }

  /** `convert_audio_to_video`. Every `Exception` is caught and becomes a 500 with its text. */
  function Convert(req: Request, env: Environment): (out: Outcome)
    ensures out.response.status == 200 || out.response.status == 400 || out.response.status == 500
    ensures out.response.body.Created? <==> out.response.status == 200
    ensures out.performed <= SideEffects
  {
    if Raises(env, ReadForm) then Outcome(Response(500, Error(env.raised.value.message)), [])
    else match Validate(req)
      case Some(message) => Rejected(message)
      case None => Process(OutputFilename(ImageText(req.imageText)), env)
  }

  /** The upload passes exactly when no check fails. */
  lemma ValidateIffValidUpload(req: Request)
    ensures Validate(req).None? <==> ValidUpload(req)
  {
  }

  /** After validation, success needs an image with status 200, an exit code of 0 and no
      exception in any later step; on success all five steps were carried out. */
  lemma ProcessSucceeds(name: string, env: Environment)
    ensures Process(name, env).response.body.Created? <==>
      env.imageStatus == 200 && env.encoderExit == 0 && (env.raised.None? || Raises(env, ReadForm))
    ensures Process(name, env).response.body.Created? ==>
      Process(name, env) == Outcome(Response(200, Created(name, VideoCreated)), SideEffects)
  {
  }

  /** After validation, the encoder runs only once the image came back with status 200. */
  lemma ProcessEncodesOnlyAfterImage(name: string, env: Environment)
    requires RunEncoder in Process(name, env).performed
    ensures env.imageStatus == 200
  {
  }

  /** After validation, an exception in a step that is reached gives a 500 carrying its text,
      and that step is the last one carried out. */
  lemma ProcessCatches(name: string, env: Environment, e: Exception, k: nat)
    requires env.raised == Some(e) && StepReached(env, k) && SideEffects[k] == e.at
    ensures Process(name, env) == Failed(e.message, k + 1)
    ensures Process(name, env).performed[k] == e.at
  {
  }

  /** The checks run in a fixed order, each answering 400 with its own message, and all of
      them before anything is saved. An empty filename is reported as not selected, although
      it would fail the extension check as well. */
  lemma ValidationOrder(req: Request, env: Environment)
    requires !Raises(env, ReadForm)
    ensures req.audio.None? ==> Convert(req, env) == Rejected(NoAudioProvided)
    ensures req.audio == Some("") ==> Convert(req, env) == Rejected(NoAudioSelected)
    ensures req.audio.Some? && req.audio.value != "" && !AllowedFile(req.audio.value) ==>
      Convert(req, env) == Rejected(InvalidAudioFormat)
  {
  }

  /** A 400 is given exactly for an invalid upload, and then nothing was saved or fetched. */
  lemma BadRequestIffInvalid(req: Request, env: Environment)
    ensures Convert(req, env).response.status == 400 <==> !Raises(env, ReadForm) && !ValidUpload(req)
    ensures Convert(req, env).response.status == 400 ==> Convert(req, env).performed == []
  {
    ValidateIffValidUpload(req);
  }

  /** Nothing is saved for an upload the checks refuse. */
  lemma SavesOnlyValidUploads(req: Request, env: Environment)
    requires SaveAudio in Convert(req, env).performed
    ensures ValidUpload(req)
  {
    ValidateIffValidUpload(req);
  }

  /** The encoder only runs for a valid upload whose image was served with status 200. */
  lemma EncoderRunsOnlyAfterImage(req: Request, env: Environment)
    requires RunEncoder in Convert(req, env).performed
    ensures env.imageStatus == 200 && ValidUpload(req)
  {
    ValidateIffValidUpload(req);
    ProcessEncodesOnlyAfterImage(OutputFilename(ImageText(req.imageText)), env);
  }

  /** Success needs a valid upload, an image with status 200, an encoder exit code of 0 and
      no exception anywhere; and these suffice. */
  lemma SuccessIff(req: Request, env: Environment)
    ensures Convert(req, env).response.body.Created? <==>
      ValidUpload(req) && env.imageStatus == 200 && env.encoderExit == 0 && env.raised.None?
  {
    ValidateIffValidUpload(req);
    ProcessSucceeds(OutputFilename(ImageText(req.imageText)), env);
  }

  /** On success every step was carried out and the reported name is derived from the text. */
  lemma SuccessPayload(req: Request, env: Environment)
    requires Convert(req, env).response.body.Created?
    ensures Convert(req, env).performed == SideEffects
    ensures Convert(req, env).response.body == Created(OutputFilename(ImageText(req.imageText)), VideoCreated)
  {
    ProcessSucceeds(OutputFilename(ImageText(req.imageText)), env);
  }

  /** Without `image_text` a successful conversion reports "Video.mp4". */
  lemma SuccessWithoutText(audio: string, env: Environment)
    requires ValidUpload(Request(Some(audio), None))
    requires env.imageStatus == 200 && env.encoderExit == 0 && env.raised.None?
    ensures Convert(Request(Some(audio), None), env).response == Response(200, Created("Video.mp4", VideoCreated))
  {
    ValidateIffValidUpload(Request(Some(audio), None));
    DefaultOutputFilename();
  }

  /** A status other than 200 for the image gives a 500 before the encoder runs. */
  lemma ImageFailure(req: Request, env: Environment)
    requires ValidUpload(req) && env.imageStatus != 200
    requires !Raises(env, ReadForm) && !Raises(env, SaveAudio) && !Raises(env, FetchImage)
    ensures Convert(req, env) == Failed(ImageDownloadFailed, 2)
    ensures RunEncoder !in Convert(req, env).performed
  {
    ValidateIffValidUpload(req);
  }

  /** A non-zero exit code gives a 500 carrying the encoder's diagnostic text; the staged
      audio and image are then not removed. */
  lemma EncoderFailure(req: Request, env: Environment)
    requires ValidUpload(req) && env.imageStatus == 200 && env.encoderExit != 0
    requires env.raised.None? || env.raised.value.at == RemoveStaged
    ensures Convert(req, env) == Failed(EncoderErrorPrefix + env.encoderStderr, 4)
    ensures RunEncoder in Convert(req, env).performed
    ensures RemoveStaged !in Convert(req, env).performed
  {
    ValidateIffValidUpload(req);
    assert SideEffects[..4][3] == RunEncoder;
  }

  /** An exception while reading the form ends the request with a 500 carrying the
      exception's text, before any check and any side effect. */
  lemma FormExceptionCaught(req: Request, env: Environment, e: Exception)
    requires env.raised == Some(e) && e.at == ReadForm
    ensures Convert(req, env) == Outcome(Response(500, Error(e.message)), [])
  {
  }

  /** An exception in side-effecting step `k`, which a valid upload reaches, ends the request
      with a 500 carrying the exception's text; step `k` is the last one carried out. */
  lemma ExceptionCaught(req: Request, env: Environment, e: Exception, k: nat)
    requires env.raised == Some(e) && ValidUpload(req)
    requires StepReached(env, k) && SideEffects[k] == e.at
    ensures Convert(req, env) == Failed(e.message, k + 1)
    ensures Convert(req, env).performed[k] == e.at
  {
    ValidateIffValidUpload(req);
    ProcessCatches(OutputFilename(ImageText(req.imageText)), env, e, k);
  }
}
