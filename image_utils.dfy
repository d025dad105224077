/** Data-URI framing of images exchanged with the browser: `encode_image` wraps the
    PNG bytes of an image as `data:image/png;base64,<payload>`, `decode_image` takes
    the text after the first ',' (up to the next one) and base64-decodes it, and
    `process_image` applies one of the two supported operations in between. OpenCV's
    `imencode`, `imdecode` and the colour and edge transforms are function
    parameters. */
module ImageUtils {
  import opened Common
  import Base64

  /** The text before the payload, without its closing ','. */
  const MediaType: string := "data:image/png;base64"
  /** What `encode_image` puts before the payload. */
  const DataUriPrefix: string := MediaType + ","

  /** Why `decode_image` or `process_image` raises: no ',' (`IndexError`), a base64
      error (`binascii.Error`, or `ValueError` for non-ASCII text), a payload that
      decodes to no bytes at all (`cv2.error` from `imdecode`, which refuses an empty
      buffer), an operation outside the table (`KeyError`), or bytes OpenCV cannot
      decode (`cv2.error` when the transform receives `None`). */
  datatype ImageError =
    | NoPayload
    | BadBase64(reason: Base64.DecodeError)
    | EmptyBuffer
    | UnknownOperation(key: string)
    | Undecodable

  /** `encode_image`: the PNG bytes of `image`, base64-encoded, behind the prefix. */
  function EncodeImage<Image>(image: Image, imencode: Image -> seq<uint8>): string
  {
    DataUriPrefix + Base64.Encode(imencode(image))
  }

  /** `decode_image`: the base64 text is `split(',')[1]`; `imdecode` raises on an
      empty buffer and otherwise gives `None` for bytes that are not an image. */
  function DecodeImage<Image>(s: string, imdecode: seq<uint8> -> Option<Image>): Result<Option<Image>, ImageError>
  {
    var parts := Split(s, ',');
    if |parts| < 2 then Err(NoPayload)
    else
      match Base64.Decode(parts[1])
      case Err(e) => Err(BadBase64(e))
      case Ok(bytes) => if bytes == [] then Err(EmptyBuffer) else Ok(imdecode(bytes))
  }

  /** A data URI with an empty payload fails in `imdecode`, before any operation is
      looked up. */
  lemma EmptyPayloadRejected<Image>(operation: string,
                                    imdecode: seq<uint8> -> Option<Image>,
                                    imencode: Image -> seq<uint8>,
                                    applyHsv: Image -> Image,
                                    applyCanny: Image -> Image)
    ensures DecodeImage(DataUriPrefix, imdecode) == Err(EmptyBuffer)
    ensures ProcessImage(DataUriPrefix, operation, imdecode, imencode, applyHsv, applyCanny) == Err(EmptyBuffer)
  {
    assert DataUriPrefix == MediaType + [','] + [];
    SplitTwo(MediaType, ',', []);
    assert Base64.Decode([]) == Ok([]);
  }

  /** The encoded string is the prefix followed by the payload, and splitting it at
      ',' gives exactly the media type and the payload. */
  lemma EncodeImageFraming<Image>(image: Image, imencode: Image -> seq<uint8>)
    ensures var payload := Base64.Encode(imencode(image));
      EncodeImage(image, imencode) == DataUriPrefix + payload &&
      ',' !in payload &&
      Split(EncodeImage(image, imencode), ',') == [MediaType, payload]
  {
    var payload := Base64.Encode(imencode(image));
    Base64.EncodeShape(imencode(image));
    assert ',' !in MediaType;
    var s := EncodeImage(image, imencode);
    assert s == MediaType + [','] + payload;
    SplitTwo(MediaType, ',', payload);
  }

  /** Splitting `a + sep + b` where neither part holds the separator gives the two parts. */
  lemma SplitTwo(a: string, sep: char, b: string)
    requires sep !in a && sep !in b
    ensures Split(a + [sep] + b, sep) == [a, b]
  {
    var s := a + [sep] + b;
    assert s[|a|] == sep;
    assert s[..|a|] == a;
    assert Find(s, sep) == |a|;
    assert s[|a| + 1..] == b;
  }

  /** Decoding what `encode_image` produced gives back what `imdecode` makes of the
      encoded bytes (which a PNG never leaves empty); so an image the codec round-trips
      comes back unchanged. */
  lemma DecodeEncodeImage<Image>(image: Image, imencode: Image -> seq<uint8>,
                                 imdecode: seq<uint8> -> Option<Image>)
    ensures DecodeImage(EncodeImage(image, imencode), imdecode) ==
      if imencode(image) == [] then Err(EmptyBuffer) else Ok(imdecode(imencode(image)))
    ensures imencode(image) != [] && imdecode(imencode(image)) == Some(image) ==>
      DecodeImage(EncodeImage(image, imencode), imdecode) == Ok(Some(image))
  {
    EncodeImageFraming(image, imencode);
    Base64.DecodeEncode(imencode(image));
  }

  /** Text without a ',' has no payload. */
  lemma NoCommaNoPayload<Image>(s: string, imdecode: seq<uint8> -> Option<Image>)
    requires ',' !in s
    ensures DecodeImage(s, imdecode) == Err(NoPayload)
  {
  }

  /** Only the text between the first and the second ',' is decoded; whatever follows
      the second ',' is ignored. */
  lemma OnlySecondFieldDecoded<Image>(head: string, payload: string, tail: string,
                                      imdecode: seq<uint8> -> Option<Image>)
    requires ',' !in head && ',' !in payload
    ensures DecodeImage(head + "," + payload + "," + tail, imdecode) ==
      match Base64.Decode(payload)
      case Err(e) => Err(BadBase64(e))
      case Ok(bytes) => if bytes == [] then Err(EmptyBuffer) else Ok(imdecode(bytes))
  {
    SecondField(head, payload, tail);
  }

  /** The field at index 1 of `head,payload,tail` is `payload`. */
  lemma SecondField(head: string, payload: string, tail: string)
    requires ',' !in head && ',' !in payload
    ensures var parts := Split(head + "," + payload + "," + tail, ',');
      |parts| >= 2 && parts[1] == payload
  {
    var rest := payload + [','] + tail;
    assert head + "," + payload + "," + tail == head + [','] + rest;
    SplitSecond(head, ',', rest);
    SplitHead(payload, ',', tail);
  }

  /** The keys of the `processors` table. */
  const Processors: set<string> := {"hsv", "canny"}

  /** `process_image(image_data, operation)`: decode, look the operation up in the
      two-entry table, apply it, and encode the result. */
  function ProcessImage<Image>(imageData: string, operation: string,
                               imdecode: seq<uint8> -> Option<Image>,
                               imencode: Image -> seq<uint8>,
                               applyHsv: Image -> Image,
                               applyCanny: Image -> Image): (r: Result<string, ImageError>)
    ensures r.Ok? ==> operation in Processors && DecodeImage(imageData, imdecode).Ok?
  {
    match DecodeImage(imageData, imdecode)
    case Err(e) => Err(e)
    case Ok(img) =>
      if operation !in Processors then Err(UnknownOperation(operation))
      else if img.None? then Err(Undecodable)
      else
        var processed := if operation == "hsv" then applyHsv(img.value) else applyCanny(img.value);
        Ok(EncodeImage(processed, imencode))
  }

  /** Decoding happens before the lookup, so a decoding failure is reported whatever
      the operation; a decodable request with any key but `hsv` and `canny` fails on
      the lookup; with those keys the reply is the transformed image, framed. */
  lemma ProcessImageOutcome<Image>(imageData: string, operation: string,
                                   imdecode: seq<uint8> -> Option<Image>,
                                   imencode: Image -> seq<uint8>,
                                   applyHsv: Image -> Image,
                                   applyCanny: Image -> Image)
    ensures var r := ProcessImage(imageData, operation, imdecode, imencode, applyHsv, applyCanny);
      var d := DecodeImage(imageData, imdecode);
      (d.Err? ==> r == Err(d.error)) &&
      (d.Ok? && operation != "hsv" && operation != "canny" ==> r == Err(UnknownOperation(operation))) &&
      (d.Ok? && d.value.None? && operation in Processors ==> r == Err(Undecodable)) &&
      (d.Ok? && d.value.Some? && operation == "hsv" ==> r == Ok(EncodeImage(applyHsv(d.value.value), imencode))) &&
      (d.Ok? && d.value.Some? && operation == "canny" ==> r == Ok(EncodeImage(applyCanny(d.value.value), imencode)))
  {
  }

  /** A request built by `encode_image` from an image the codec round-trips (its PNG
      bytes being non-empty, as every PNG's are) is answered with the transformed
      image, framed the same way. */
  lemma ProcessEncodedImage<Image>(image: Image, operation: string,
                                   imdecode: seq<uint8> -> Option<Image>,
                                   imencode: Image -> seq<uint8>,
                                   applyHsv: Image -> Image,
                                   applyCanny: Image -> Image)
    requires imencode(image) != [] && imdecode(imencode(image)) == Some(image)
    requires operation in Processors
    ensures ProcessImage(EncodeImage(image, imencode), operation, imdecode, imencode, applyHsv, applyCanny) ==
      Ok(EncodeImage(if operation == "hsv" then applyHsv(image) else applyCanny(image), imencode))
  {
    DecodeEncodeImage(image, imencode, imdecode);
  }
}
