/**
 * The state of the counting tool and the handlers that change it. Each
 * handler is one atomic transition; what the browser does on its behalf
 * (reading a file, opening the camera, drawing a frame, the HTTP request)
 * arrives as an argument describing its outcome.
 */
module Counter {
  import opened Common
  import opened JsRuntime
  import opened ImageNormalizer
  import opened Media

  /** A file handed to the tool: its name, its MIME type (`file.type`) and its bytes. */
  datatype File = File(name: string, mimeType: string, content: seq<byte>)

  /** What the tool shows after a successful count. */
  datatype CountResult = CountResult(count: int, image: string)

  /** The fields of the service's JSON answer the tool reads. */
  datatype CountResponse = CountResponse(image: Nullish<string>, totalCount: Nullish<int>, count: Nullish<int>)

  /**
   * How the request to the counting service ends: the `fetch` promise is
   * rejected, the status is not 2xx, the body is not JSON the tool can read,
   * or a JSON answer arrives.
   */
  datatype FetchOutcome = NetworkFailure | HttpError(status: int) | MalformedBody | Answer(body: CountResponse)

  const InvalidFileMessage: string := "Please select an image file (JPG, PNG)"
  const CameraUnsupportedMessage: string := "Camera is not supported in this browser."
  const CameraDeniedMessage: string :=
    "Camera access denied or unavailable. Please allow camera permissions and try again."
  const NoImageMessage: string := "Please select or capture an image first"
  const CountFailedMessage: string := "Failed to process image. Please try again."

  /** Only files whose MIME type starts with `image/` are accepted. */
  predicate IsImageFile(file: File) {
    StartsWith(file.mimeType, "image/")
  }

  /** The file made from a captured frame's JPEG blob. */
  function CapturedFile(blob: seq<byte>): File {
    File("captured-image.jpg", "image/jpeg", blob)
  }

  class CounterTool {
    var selectedImage: Option<string>
    var selectedFile: Option<File>
    var isLoading: bool
    var result: Option<CountResult>
    var error: Option<string>
    var isCameraActive: bool
    var cameraError: Option<string>
    /** `streamRef.current`: the last camera stream opened; the tool never clears it. */
    var stream: MediaStream?

    /** The tracks of the current stream: what stopping the camera changes. */
    ghost function Tracks(): set<MediaStreamTrack>
      reads this
    {
      if stream == null then {} else set t | t in stream.tracks
    }

    /**
     * Between two handlers: a live camera view has a stream behind it, the
     * camera is released whenever the view is off, and no request is in
     * flight (each handler runs to completion).
     */
    ghost predicate Valid()
      reads this, Tracks()
    {
      && (isCameraActive ==> stream != null)
      && (!isCameraActive && stream != null ==> stream.Released())
      && !isLoading
    }

    /** The idle upload state: nothing selected, nothing shown, camera off. */
    ghost predicate Idle()
      reads this
    {
      selectedImage.None? && selectedFile.None? && result.None? && error.None?
      && cameraError.None? && !isCameraActive && !isLoading
    }

    constructor ()
      ensures Valid() && Idle() && stream == null
    {
      selectedImage, selectedFile, isLoading := None, None, false;
      result, error := None, None;
      isCameraActive, cameraError := false, None;
      stream := null;
    }

    /** Stops every track of the current stream, if there is one. */
    method StopStream()
      modifies Tracks()
      ensures stream != null ==> stream.Released()
    {
      if stream != null {
        stream.StopTracks();
      }
    }

    /**
     * `handleFileSelect(file)`: a file that is not an image only sets the
     * error message. An image is selected, clears the error, the result and
     * the camera error, and turns the camera off. `preview` is what the
     * `FileReader` delivers as the data URL to show (`None` if it delivers
     * nothing).
     */
    method HandleFileSelect(file: File, preview: Option<string>)
      requires Valid()
      modifies this, Tracks()
      ensures Valid() && stream == old(stream) && isLoading == old(isLoading)
      ensures !IsImageFile(file) ==>
        && error == Some(InvalidFileMessage)
        && selectedImage == old(selectedImage) && selectedFile == old(selectedFile)
        && result == old(result) && cameraError == old(cameraError)
        && isCameraActive == old(isCameraActive) && unchanged(Tracks())
      ensures IsImageFile(file) ==>
        && selectedFile == Some(file) && error.None? && result.None? && cameraError.None?
        && selectedImage == (if preview.Some? then preview else old(selectedImage))
        && !isCameraActive && (stream != null ==> stream.Released())
    {
      if !IsImageFile(file) {
        error := Some(InvalidFileMessage);
        return;
      }
      selectedFile := Some(file);
      error := None;
      result := None;
      cameraError := None;
      if preview.Some? {
        selectedImage := preview;
      }
      if stream != null {
        StopStream();
        isCameraActive := false;
      }
    }

    /**
     * `startCamera()`: clears the selection, the result and both error
     * messages, then asks for the preferred rear camera and, if that is
     * refused, for any camera. `supported` says whether the browser offers
     * `getUserMedia`; `preferred` and `fallback` are the streams the two
     * requests yield (`None` when the request is rejected).
     */
    method StartCamera(supported: bool, preferred: Option<MediaStream>, fallback: Option<MediaStream>)
      requires Valid()
      modifies this
      ensures Valid() && isLoading == old(isLoading)
      ensures selectedImage.None? && selectedFile.None? && result.None? && error.None?
      ensures !supported ==>
        cameraError == Some(CameraUnsupportedMessage)
        && stream == old(stream) && isCameraActive == old(isCameraActive)
      ensures supported && preferred.Some? ==>
        stream == preferred.value && isCameraActive && cameraError.None?
      ensures supported && preferred.None? && fallback.Some? ==>
        stream == fallback.value && isCameraActive && cameraError.None?
      ensures supported && preferred.None? && fallback.None? ==>
        cameraError == Some(CameraDeniedMessage)
        && stream == old(stream) && isCameraActive == old(isCameraActive)
    {
      cameraError := None;
      error := None;
      result := None;
      selectedImage := None;
      selectedFile := None;
      if !supported {
        cameraError := Some(CameraUnsupportedMessage);
        return;
      }
      var acquired: Option<MediaStream> := if preferred.Some? then preferred else fallback;
      if acquired.None? {
        cameraError := Some(CameraDeniedMessage);
        return;
      }
      stream := acquired.value;
      isCameraActive := true;
    }

    /**
     * `captureImage()`: with a mounted video element and a 2D context, the
     * drawn frame `frame` (its JPEG data URL) becomes the preview, the JPEG
     * `blob` (if the canvas yields one) the selected file, and the camera is
     * turned off. Without either, nothing happens.
     */
    method CaptureImage(videoMounted: bool, hasContext: bool, frame: string, blob: Option<seq<byte>>)
      requires Valid()
      modifies this, Tracks()
      ensures Valid() && stream == old(stream) && isLoading == old(isLoading)
      ensures result == old(result) && error == old(error) && cameraError == old(cameraError)
      ensures !(videoMounted && hasContext) ==>
        selectedImage == old(selectedImage) && selectedFile == old(selectedFile)
        && isCameraActive == old(isCameraActive) && unchanged(Tracks())
      ensures videoMounted && hasContext ==>
        && selectedImage == Some(frame)
        && selectedFile == (if blob.Some? then Some(CapturedFile(blob.value)) else old(selectedFile))
        && !isCameraActive && (stream != null ==> stream.Released())
    {
      if !videoMounted {
        return;
      }
      if hasContext {
        selectedImage := Some(frame);
        if blob.Some? {
          selectedFile := Some(CapturedFile(blob.value));
        }
        if stream != null {
          StopStream();
          isCameraActive := false;
        }
      }
    }

    /**
     * `countObjects()`: without a selected file only the prompt is shown and
     * no request is made (`requested` is false). Otherwise the file is sent;
     * an answer becomes the result, its count by `CountOf` and its image by
     * the normalisation chain, and any failure sets the generic error and
     * keeps the selection and the previous result. The tool is never left
     * loading.
     */
    method CountObjects(outcome: FetchOutcome) returns (requested: bool)
      requires Valid()
      modifies this
      ensures Valid() && !isLoading
      ensures requested == old(selectedFile).Some?
      ensures selectedImage == old(selectedImage) && selectedFile == old(selectedFile)
      ensures isCameraActive == old(isCameraActive) && cameraError == old(cameraError) && stream == old(stream)
      ensures !requested ==> error == Some(NoImageMessage) && result == old(result)
      ensures requested && outcome.Answer? ==>
        error.None?
        && result == Some(CountResult(CountOf(outcome.body.totalCount, outcome.body.count),
                                      ImageSource(RawImage(outcome.body.image))))
      ensures requested && !outcome.Answer? ==> error == Some(CountFailedMessage) && result == old(result)
    {
      if selectedFile.None? {
        error := Some(NoImageMessage);
        return false;
      }
      requested := true;
      isLoading := true;
      error := None;
      match outcome {
        case Answer(body) =>
          var rawImage := RawImage(body.image);
          var imageSrc := rawImage;
          if StartsWith(rawImage, "data:") {
            imageSrc := rawImage;
          } else if StartsWith(rawImage, "http://") || StartsWith(rawImage, "https://") {
            imageSrc := rawImage;
          } else if IsLikelyHexJpeg(rawImage) {
            var payload := HexToBase64(rawImage);
            imageSrc := JpegDataUriPrefix + payload;
          } else if rawImage != "" {
            imageSrc := JpegDataUriPrefix + rawImage;
          }
          result := Some(CountResult(CountOf(body.totalCount, body.count), imageSrc));
        case _ =>
          error := Some(CountFailedMessage);
      }
      isLoading := false;
    }

    /**
     * `resetTool()`: back to the idle upload state, with every track of the
     * last stream stopped. The stream itself stays referenced.
     */
    method ResetTool()
      requires Valid()
      modifies this, Tracks()
      ensures Valid() && Idle() && stream == old(stream)
      ensures stream != null ==> stream.Released()
    {
      selectedImage := None;
      selectedFile := None;
      result := None;
      error := None;
      cameraError := None;
      isCameraActive := false;
      StopStream();
    }

    /** The unmount clean-up effect: stops every track of the last stream and changes no field. */
    method Unmount()
      requires Valid()
      modifies Tracks()
      ensures unchanged(this)
      ensures stream != null ==> stream.Released()
    {
      StopStream();
    }
  }
}
