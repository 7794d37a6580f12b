# Stack object counter: the counting tool, modelled in Dafny

The web app's counting tool lets a user upload a photo, or capture one with the camera. It sends the photo to a remote object-counting service and shows the count. It also shows the annotated image that comes back. That image can arrive in four forms: a data URI, an HTTP(S) URL, hexadecimal JPEG bytes, or bare base64. The tool turns each form into something an `<img>` can show.

The model has two parts.

* **The image-response normaliser** (`image_normalizer.dfy`, `base64.dfy` and `js_runtime.dfy`):
  * the hexadecimal JPEG sniff `isLikelyHexJpeg`;
  * `hexToBase64`, written imperatively: one method per loop of the source (`DecodePairs` fills a `Uint8Array`; `BinaryString` builds the binary string in chunks of 0x8000 bytes), and `HexToBase64` combines them;
  * the classification chain that picks the image source, as the function `ImageSource`;
  * the count default `total_count ?? count ?? 0`, as `CountOf`.

  The JavaScript built-ins this code relies on are written out: `trim`, `parseInt(…, 16)`, the octet conversion of a `Uint8Array` store, `String.fromCharCode` and `btoa`. Base64 is the encoding of section 4 of RFC 4648, with the standard alphabet and `=` padding. The model proves that encoding and strict decoding are inverses in both directions. The wrapped form is a data URI in the sense of section 3 of RFC 2397. The sniffed marker `ffd8` is the JPEG start-of-image marker from Table B.1 of ITU-T T.81.
* **The tool's state machine** (`counter_tool.dfy` and `media.dfy`):
  * a class `CounterTool` whose fields are the component's state variables, plus the camera stream reference;
  * one method per handler;
  * camera streams and tracks as small classes, with stopping a stream as a loop over its tracks.

  The object invariant `Valid()` says three things. A live camera view has a stream behind it. When the view is off, every track of the stream is stopped. No request is in flight between handlers.

Browser effects come in as arguments that describe their outcome:
* the data URL the `FileReader` delivers;
* whether `getUserMedia` exists;
* the streams the preferred and the fallback camera requests yield;
* whether a video element and a 2D context exist;
* the captured frame's data URL and JPEG blob;
* how the `fetch` ends.

Where the documented behaviour and the code differ, the model follows the code:
* The hex sniff compares the marker case-sensitively: `FFD8…` is refused even though the digit test accepts upper case (`UpperCaseMarkerRefused`). Such text then takes the "already base64" branch.
* The normaliser only ensures that its result is empty or starts with `data:`, `http://` or `https://`. Non-hex text is wrapped verbatim, without checking that it is valid base64. So the result is not always a well-formed data URI.
* A failed count keeps the selection. It also keeps the previous result, because `countObjects` never clears `result`.
* `streamRef.current` is never cleared. After a reset the old, stopped stream stays referenced. Later file selections stop its tracks again, which changes nothing.
* `startCamera` does not stop a stream that is already open. The page offers it only while the camera is off, and `Valid()` says the stream is released then.
* The count is any integer. The code does not enforce a non-negative count.

## Model

The operations below are plain definitions. They carry no contract of their own. The lemmas in the table state what they mean.

* `JsRuntime.Trim` models `trim()` (web_app/src/components/CounterTool.tsx:20, 25). `JsRuntime.IsWhitespace` is the white-space set it strips.
* `JsRuntime.ParseInt16` and `JsRuntime.ParseSignedHex` model `parseInt(…, 16)` (line 28).
* `JsRuntime.ToUint8` models the octet conversion of a `Uint8Array` store (lines 26-28).
* `JsRuntime.FromCharCode` models `String.fromCharCode` (line 35).
* `JsRuntime.Btoa` models `btoa`, including its `InvalidCharacterError` (line 37).
* `ImageNormalizer.IsLikelyHexJpeg` models the sniff `isLikelyHexJpeg` (lines 19-22).
* `ImageNormalizer.HexBytes`, `ImageNormalizer.PairByte` and `ImageNormalizer.Pair` model the decoded pairs of `hexToBase64`'s first loop (lines 26-28).
* `ImageNormalizer.HexLower` is the reference lower-case hexadecimal encoder. It is not in the source.
* `ImageNormalizer.RawImage` models `data.image ?? ""` (line 214).
* `Counter.IsImageFile` models the MIME-type test of `handleFileSelect` (line 64).
* `Counter.CapturedFile` models the `File` made from a captured blob (lines 172-174).

| member | source | states |
|---|---|---|
| `JsRuntime.TrimStart` | web_app/src/components/CounterTool.tsx:20 | the result is a suffix of the input, everything dropped is ECMAScript white space, and the result does not start with white space |
| `JsRuntime.TrimEnd` | web_app/src/components/CounterTool.tsx:20 | the result is a prefix of the input, everything dropped is white space, and the result does not end with white space |
| `JsRuntime.TrimSlice` | web_app/src/components/CounterTool.tsx:25 | `trim()` yields a contiguous slice of its input, with only white space cut from both ends |
| `JsRuntime.TrimEnds` | web_app/src/components/CounterTool.tsx:25 | what `trim()` leaves is empty, or neither starts nor ends with white space |
| `JsRuntime.TrimOfTrimmed` | web_app/src/components/CounterTool.tsx:25 | a string with no white space at either end is its own trim |
| `JsRuntime.HexDigitPrefix` | web_app/src/components/CounterTool.tsx:28 | `parseInt` reads the longest prefix of hexadecimal digits: a prefix, all digits, and followed by a non-digit unless it is the whole string |
| `JsRuntime.ParseInt16SkipsTrimmed` | web_app/src/components/CounterTool.tsx:28 | `parseInt(s, 16)` is the sign/`0x`/digits parse applied to `s` with its leading white space trimmed |
| `JsRuntime.ParseHexPair` | web_app/src/components/CounterTool.tsx:28 | a two-character slice of hexadecimal digits parses to `16 * high + low` |
| `JsRuntime.ToUint8OfByte` | web_app/src/components/CounterTool.tsx:28 | a parsed value below 256 is stored unchanged |
| `JsRuntime.FromCharCodeAppend` | web_app/src/components/CounterTool.tsx:34-36 | converting two chunks and concatenating equals converting their concatenation |
| `JsRuntime.BtoaOfCharCodes` | web_app/src/components/CounterTool.tsx:37 | `btoa` never throws on a string built with `fromCharCode` from bytes, and yields the base64 encoding of those bytes |
| `Base64.EncodeSextet` | web_app/src/components/CounterTool.tsx:37 | every 6-bit value maps into the RFC 4648 alphabet |
| `Base64.DecodeSextet` | web_app/src/components/CounterTool.tsx:37 | every alphabet character has a 6-bit value that encodes back to it |
| `Base64.Encode` | web_app/src/components/CounterTool.tsx:37 | the encoding of `n` bytes has `4 * ceil(n / 3)` characters |
| `Base64.DecodeEncode` | web_app/src/components/CounterTool.tsx:37 | decoding the encoding of any bytes returns exactly those bytes |
| `Base64.EncodeDecode` | web_app/src/components/CounterTool.tsx:37 | whenever a string decodes to some bytes, it is the encoding of those bytes (the encoding is canonical) |
| `Base64.QuantumRoundTrip` | web_app/src/components/CounterTool.tsx:37 | three bytes encode to four alphabet characters that decode back to them |
| `ImageNormalizer.PairByteOfDigits` | web_app/src/components/CounterTool.tsx:28 | the byte stored for pair `i` of hexadecimal digits is the value of characters `2i` and `2i+1` |
| `ImageNormalizer.HexBytesOfDigits` | web_app/src/components/CounterTool.tsx:24-29 | the byte array has `floor(n / 2)` entries, and over hexadecimal digits entry `i` is the value of characters `2i` and `2i+1` |
| `ImageNormalizer.OddNibbleDropped` | web_app/src/components/CounterTool.tsx:26-29 | a trailing odd character does not change the decoded bytes |
| `ImageNormalizer.HexLowerDigit` | web_app/src/components/CounterTool.tsx:19-22 | writes one lower-case digit for a value below 16, and that digit passes the digit test and reads back as the value. With `HexLower`, it is the reference encoder for the hexadecimal text the service sends, and the round-trip lemmas use it |
| `ImageNormalizer.HexRoundTrip` | web_app/src/components/CounterTool.tsx:24-29 | decoding the lower-case hexadecimal text of any bytes, as `hexToBase64` does, returns those bytes |
| `ImageNormalizer.HexLowerPair` | web_app/src/components/CounterTool.tsx:28 | pair `i` of the hexadecimal text of some bytes is stored as byte `i` |
| `ImageNormalizer.SniffedHexStartsWithSoi` | web_app/src/components/CounterTool.tsx:19-22 | text that passes the sniff decodes to at least five bytes, the first two being the JPEG SOI marker 0xFF 0xD8 |
| `ImageNormalizer.HexOfJpegIsSniffed` | web_app/src/components/CounterTool.tsx:19-22 | the lower-case hexadecimal text of six or more bytes that start with the SOI marker passes the sniff |
| `ImageNormalizer.UpperCaseMarkerRefused` | web_app/src/components/CounterTool.tsx:21 | text whose trimmed form starts with `FFD8` is refused, although those four characters pass the digit test |
| `ImageNormalizer.DecodePairs` | web_app/src/components/CounterTool.tsx:26-29 | the new `Uint8Array` has `floor(n / 2)` entries, and entry `i` is what `parseInt` makes of pair `i` stored as an octet |
| `ImageNormalizer.BinaryString` | web_app/src/components/CounterTool.tsx:32-36 | concatenating `fromCharCode` of successive 0x8000-byte chunks, with the last clamped, gives the conversion of the whole array |
| `ImageNormalizer.HexToBase64` | web_app/src/components/CounterTool.tsx:24-38 | the result is the RFC 4648 base64 of the bytes decoded from the trimmed text, and `btoa` never throws on the way |
| `ImageNormalizer.ImageSource` | web_app/src/components/CounterTool.tsx:214-226 | the image source is empty exactly when the raw text is empty; otherwise it starts with `data:`, `http://` or `https://` |
| `ImageNormalizer.PassThrough` | web_app/src/components/CounterTool.tsx:217-220 | text starting with `data:`, `http://` or `https://` is returned unchanged, before any hex sniffing |
| `ImageNormalizer.Wrapped` | web_app/src/components/CounterTool.tsx:221-226 | other non-empty text becomes `data:image/jpeg;base64,` followed by the re-encoded bytes when it passes the sniff, and by the text itself otherwise |
| `ImageNormalizer.HexJpegRoundTrip` | web_app/src/components/CounterTool.tsx:214-222 | for the hex text of a JPEG, the source is a JPEG data URI whose payload decodes to exactly the original bytes |
| `ImageNormalizer.SniffedNotUri` | web_app/src/components/CounterTool.tsx:217-222 | text that passes the sniff starts with neither `data:` nor `http://`/`https://`, so the chain reaches the hexadecimal branch |
| `ImageNormalizer.SniffedRoundTrip` | web_app/src/components/CounterTool.tsx:214-222 | for any text that passes the sniff, including digits of either case after `ffd8` and white space around the text, the source is a JPEG data URI whose payload decodes to exactly the bytes `hexToBase64` reads from the trimmed text |
| `JsRuntime.FirstCharKept` | web_app/src/components/CounterTool.tsx:20 | unless a string starts with white space, its trim starts with the same character |
| `ImageNormalizer.CountOf` | web_app/src/components/CounterTool.tsx:229 | a present `total_count` wins even when it is 0; otherwise a present `count`; otherwise 0. Only `null` and `undefined` count as absent |
| `Media.MediaStreamTrack.Stop` | web_app/src/components/CounterTool.tsx:58 | a stopped track has ended |
| `Media.MediaStream.StopTracks` | web_app/src/components/CounterTool.tsx:58 | after the loop over `getTracks()`, every track of the stream has ended |
| `Counter.CounterTool.constructor` | web_app/src/components/CounterTool.tsx:41-52 | the tool starts idle: nothing selected, no result or errors, camera off, not loading, no stream |
| `Counter.CounterTool.StopStream` | web_app/src/components/CounterTool.tsx:257-259 | if there is a stream, all its tracks are stopped afterwards, and nothing else changes |
| `Counter.CounterTool.HandleFileSelect` | web_app/src/components/CounterTool.tsx:63-85 | a non-image MIME type sets only the error message. An image file becomes the selected file and the preview. The error, the result and the camera error are cleared. The stream is stopped and the camera is off |
| `Counter.CounterTool.StartCamera` | web_app/src/components/CounterTool.tsx:110-146 | clears the selection, the result and both errors. Without `getUserMedia` it sets the unsupported message. Otherwise it uses the preferred stream, else the fallback stream, and turns the camera on. If both requests are rejected it sets the denied message and changes no camera state |
| `Counter.CounterTool.CaptureImage` | web_app/src/components/CounterTool.tsx:156-185 | with a video element and a 2D context, the frame becomes the preview and the blob (if any) becomes `captured-image.jpg` of type `image/jpeg`. The stream is stopped and the camera is off. Without them, nothing changes |
| `Counter.CounterTool.CountObjects` | web_app/src/components/CounterTool.tsx:187-238 | without a selected file: the prompt error and no request. An answer sets the result from `CountOf` and `ImageSource`. Any failure sets the generic error and keeps the selection and the previous result. The tool is never left loading |
| `Counter.CounterTool.ResetTool` | web_app/src/components/CounterTool.tsx:249-260 | back to the idle state (selection, result and both errors cleared, camera off), with every track of the last stream stopped and the stream still referenced |
| `Counter.CounterTool.Unmount` | web_app/src/components/CounterTool.tsx:55-61 | the clean-up effect stops every track of the last stream and changes no field |

## Left out

- The HTTP request itself is not modelled: the `FormData` body, the endpoint URL and `fetch` (lines 197-212). `CountObjects` receives only the request's outcome. Network failure, a non-2xx status and an unreadable body all become the same error path.
- `Number(…)` on the count is not modelled (line 229). The count fields are optional integers, so non-numeric JSON values and `NaN` are not covered. The same goes for `String(…)` on an `image` field that is not a string (line 214).
- Browser capabilities become arguments:
  - `FileReader` (lines 74-78);
  - the `getUserMedia` constraints: rear camera, 1280×720, `audio: false` (lines 125-135);
  - canvas drawing, `toDataURL` and `toBlob` (lines 159-177).
  
  The video-attachment effect (lines 148-154) and `console.error` logging are omitted.
- Not modelled: `handleDrop`, `handleDragOver`, `handleDragLeave` and the `isDragOver` highlight flag (lines 87-108). They only toggle the highlight, and `handleDrop` passes the first dropped file to `handleFileSelect`, which is modelled.
- `downloadImage` (lines 240-247) is not modelled. It only creates and clicks a download link.
- The JSX and its guards are not modelled: the count button disabled without a preview or while loading, and the camera button hidden while the camera is on. `Valid()` records the resting state that the atomic handlers keep.
- React's asynchronous state updates and callback ordering are not modelled. Each handler is one atomic step, so the loading state inside `countObjects` cannot be observed. Two overlapping `startCamera` calls, or a reset while a `toBlob` callback is pending, are not modelled.
- Strings are treated as sequences of Unicode scalar values. JavaScript strings are UTF-16 code units, so lengths differ for characters outside the Basic Multilingual Plane. Lone surrogates cannot be written.
- `ParseInt16` reads numerals as exact integers. Precision loss above 2^53 is not modelled. It cannot occur here, because the tool only parses two-character slices.
- The presentational components are not part of this model: the hero, navbar, footer, supported objects, how-it-works and use-cases sections, and the index page. The Python camera and image scripts under `backend_test/` are not part of it either.
